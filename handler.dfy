/**
  The serverless `handler` that unlocks one base64-encoded PDF: an ordered
  ladder of guards inside one `try`, whose every throw becomes a 400 JSON
  response, and a 200 JSON response on success.

  JSON parsing, base64 decoding, pdf-lib's load and save, and the final
  `toString('base64')` are library calls; they appear as fields of a
  `Library` value. Parsing, decoding, load and save may throw; the final
  encoding is a total function.
*/
module RemovePassword {

  /** The JavaScript values that `event.body` and the parsed fields can hold. */
  datatype JsValue =
    | Undefined
    | Null
    | Bool(b: bool)
    | Num(n: real)
    | Str(s: string)
    | Composite   // an object or an array

  /** JavaScript truthiness, as `!x` tests it (JSON has no NaN). */
  predicate Truthy(v: JsValue)
    ensures Truthy(v) ==> !v.Undefined? && !v.Null?
    ensures v.Str? ==> (Truthy(v) <==> v.s != "")
    ensures v.Num? ==> (Truthy(v) <==> v.n != 0.0)
    ensures v.Bool? ==> (Truthy(v) <==> v.b)
  {
    match v
    case Undefined => false
    case Null => false
    case Bool(b) => b
    case Num(n) => n != 0.0
    case Str(s) => s != ""
    case Composite => true
  }

  /** A value, or the `message` of what was thrown. */
  datatype Throwing<+T> = Returned(value: T) | Threw(message: string)
  {
    predicate IsFailure() { Threw? }

    function PropagateFailure<U>(): Throwing<U>
      requires Threw?
    {
      Threw(message)
    }

    function Extract(): T
      requires Returned?
    {
      value
    }
  }

  /** The two properties destructured from the parsed body. */
  datatype Fields = Fields(fileBase64: JsValue, password: JsValue)

  type Bytes = seq<bv8>

  /** A document pdf-lib has loaded. */
  datatype LoadedPdf = LoadedPdf(id: nat)

  datatype Library = Library(
    parse: JsValue -> Throwing<Fields>,          // JSON.parse(event.body), then destructuring
    fromBase64: JsValue -> Throwing<Bytes>,      // Buffer.from(fileBase64, 'base64')
    load: (Bytes, JsValue) -> Throwing<LoadedPdf>, // PDFDocument.load(pdfBytes, { password })
    save: LoadedPdf -> Throwing<Bytes>,          // pdfDoc.save()
    toBase64: Bytes -> string)                   // unlockedBytes.toString('base64')

  datatype Event = Event(body: JsValue)

  datatype ResponseBody = UnlockedBody(unlockedBase64: string) | ErrorBody(error: string)

  datatype Response = Response(statusCode: int, contentType: string, body: ResponseBody)

  const Json := "application/json"
  const EmptyBody := "Request body is empty"
  const MissingFile := "Missing \"fileBase64\""
  const MissingPassword := "Missing \"password\""
  const UnknownError := "Unknown error"

  /**
    The body of the `try`: the guards in order, then load and save. An empty
    body throws before parsing; a value comes back only when the body parses
    to two truthy fields and every library call returns.
  */
  function TryUnlock(event: Event, lib: Library): (r: Throwing<string>)
    ensures !Truthy(event.body) ==> r == Threw(EmptyBody)
    ensures r.Returned? ==>
      && Truthy(event.body)
      && lib.parse(event.body).Returned?
      && Truthy(lib.parse(event.body).value.fileBase64)
      && Truthy(lib.parse(event.body).value.password)
    ensures Truthy(event.body) && lib.parse(event.body).Returned? && !Truthy(lib.parse(event.body).value.fileBase64) ==>
      r == Threw(MissingFile)
  {
    if !Truthy(event.body) then Threw(EmptyBody)
    else
      var fields :- lib.parse(event.body);
      if !Truthy(fields.fileBase64) then Threw(MissingFile)
      else if !Truthy(fields.password) then Threw(MissingPassword)
      else
        var pdfBytes :- lib.fromBase64(fields.fileBase64);
        var pdfDoc :- lib.load(pdfBytes, fields.password);
        var unlockedBytes :- lib.save(pdfDoc);
        Returned(lib.toBase64(unlockedBytes))
  }

  /** The `catch` branch's response. */
  function BadRequest(error: string): (r: Response)
    ensures r.statusCode == 400 && r.contentType == Json
    ensures r.body.ErrorBody? && r.body.error == error
  {
    Response(400, Json, ErrorBody(error))
  }

  /** `err.message || 'Unknown error'`. */
  function ErrorText(message: string): (r: string)
    ensures r != ""
    ensures message != "" ==> r == message
    ensures message == "" ==> r == UnknownError
  {
    if message == "" then UnknownError else message
  }

  /**
    The handler never throws: every response is JSON with status 200 or 400,
    200 exactly when the body carries the unlocked document, and a 400 always
    names an error.
  */
  function Handle(event: Event, lib: Library): (r: Response)
    ensures r.statusCode == 200 || r.statusCode == 400
    ensures r.contentType == Json
    ensures r.statusCode == 200 <==> r.body.UnlockedBody?
    ensures r.body.ErrorBody? ==> r.body.error != ""
    ensures !Truthy(event.body) ==> r == BadRequest(EmptyBody)
  {
    match TryUnlock(event, lib)
    case Returned(unlockedBase64) => Response(200, Json, UnlockedBody(unlockedBase64))
    case Threw(message) => BadRequest(ErrorText(message))
  }

  /** An empty body is rejected before anything is parsed: the library plays no part. */
  lemma EmptyBodyCheckedFirst(event: Event, lib: Library, other: Library)
    requires !Truthy(event.body)
    ensures Handle(event, lib) == Handle(event, other) == BadRequest(EmptyBody)
  {
  }

  /** A parse failure is reported with its own message. */
  lemma ParseErrorReported(event: Event, lib: Library)
    requires Truthy(event.body) && lib.parse(event.body).Threw?
    ensures Handle(event, lib) == BadRequest(ErrorText(lib.parse(event.body).message))
  {
  }

  /**
    A falsy `fileBase64` is reported whatever `password` holds, so a body
    lacking both names `fileBase64`; a falsy `password` is reported next.
  */
  lemma MissingFieldsReported(event: Event, lib: Library)
    requires Truthy(event.body) && lib.parse(event.body).Returned?
    ensures !Truthy(lib.parse(event.body).value.fileBase64) ==>
      Handle(event, lib) == BadRequest(MissingFile)
    ensures Truthy(lib.parse(event.body).value.fileBase64) && !Truthy(lib.parse(event.body).value.password) ==>
      Handle(event, lib) == BadRequest(MissingPassword)
  {
  }

  /** Once both fields are present, a throw from decoding, loading or saving is reported with its message. */
  lemma LibraryErrorReported(event: Event, lib: Library)
    requires Truthy(event.body) && lib.parse(event.body).Returned?
    requires Truthy(lib.parse(event.body).value.fileBase64) && Truthy(lib.parse(event.body).value.password)
    ensures
      var f := lib.parse(event.body).value;
      var decoded := lib.fromBase64(f.fileBase64);
      && (decoded.Threw? ==> Handle(event, lib) == BadRequest(ErrorText(decoded.message)))
      && (decoded.Returned? && lib.load(decoded.value, f.password).Threw? ==>
            Handle(event, lib) == BadRequest(ErrorText(lib.load(decoded.value, f.password).message)))
      && (decoded.Returned? && lib.load(decoded.value, f.password).Returned?
          && lib.save(lib.load(decoded.value, f.password).value).Threw? ==>
            Handle(event, lib) == BadRequest(ErrorText(lib.save(lib.load(decoded.value, f.password).value).message)))
  {
  }

  /**
    Status 200 happens exactly when every guard passes and every library call
    returns, and then the body's only field is the encoding of the saved bytes.
  */
  lemma SucceedsIff(event: Event, lib: Library)
    ensures Handle(event, lib).statusCode == 200 <==>
      && Truthy(event.body)
      && lib.parse(event.body).Returned?
      && Truthy(lib.parse(event.body).value.fileBase64)
      && Truthy(lib.parse(event.body).value.password)
      && lib.fromBase64(lib.parse(event.body).value.fileBase64).Returned?
      && lib.load(lib.fromBase64(lib.parse(event.body).value.fileBase64).value,
                  lib.parse(event.body).value.password).Returned?
      && lib.save(lib.load(lib.fromBase64(lib.parse(event.body).value.fileBase64).value,
                           lib.parse(event.body).value.password).value).Returned?
    ensures Handle(event, lib).statusCode == 200 ==>
      Handle(event, lib).body == UnlockedBody(lib.toBase64(
        lib.save(lib.load(lib.fromBase64(lib.parse(event.body).value.fileBase64).value,
                          lib.parse(event.body).value.password).value).value))
  {
  }
}
