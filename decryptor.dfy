/**
  `unlock_pdf`: the decision ladder that turns one uploaded document and a
  password into `(bytes or None, success flag, message)`.

  The PDF library is an oracle. A `Doc` says whether it is encrypted, which
  passwords its security handler accepts, which pages it holds, and at which
  stage (if any) the library raises an exception on it.
*/
module Decryptor {
  import opened Wrappers

  /** A page object handed from the reader to the writer. */
  datatype Page = Page(id: nat)

  /** Where the library raises, with the text of the exception. */
  datatype Fault =
    | NoFault
    | OnRead(cause: string)     // opening the reader
    | OnDecrypt(cause: string)  // trying the password
    | OnWrite(cause: string)    // copying pages or serialising the writer

  datatype Doc = Doc(fault: Fault, encrypted: bool, accepts: string -> bool, pages: seq<Page>)

  /** The bytes a fresh writer serialises: an unencrypted document with these pages. */
  datatype PdfBytes = Written(pages: seq<Page>)

  /** The `(bytes, success, message)` triple. */
  datatype UnlockResult = UnlockResult(bytes: Option<PdfBytes>, success: bool, message: string)

  const NotProtected := "PDF is not password protected"
  const IncorrectPassword := "Incorrect password"
  const Succeeded := "Success"
  const ErrorPrefix := "Error processing PDF: "

  function Failure(message: string): UnlockResult
  {
    UnlockResult(None, false, message)
  }

  /** The exception handler: every exception becomes a failure with its text. */
  function Caught(cause: string): (r: UnlockResult)
    ensures r.bytes.None? && !r.success
    ensures ErrorPrefix <= r.message && r.message[|ErrorPrefix|..] == cause
  {
    Failure(ErrorPrefix + cause)
  }

  /**
    The ladder: read, check for encryption, try the password, copy every
    page into a writer and serialise it. The flag is set exactly when bytes
    come back, and then they hold the reader's pages in order.
  */
  function Unlock(doc: Doc, password: string): (r: UnlockResult)
    ensures r.success <==> r.bytes.Some?
    ensures r.success ==> r.bytes.value.pages == doc.pages && r.message == Succeeded
    ensures !r.success ==>
      r.message == NotProtected || r.message == IncorrectPassword || ErrorPrefix <= r.message
  {
    if doc.fault.OnRead? then Caught(doc.fault.cause)
    else if !doc.encrypted then Failure(NotProtected)
    else if doc.fault.OnDecrypt? then Caught(doc.fault.cause)
    else if !doc.accepts(password) then Failure(IncorrectPassword)
    else if doc.fault.OnWrite? then Caught(doc.fault.cause)
    else UnlockResult(Some(Written(doc.pages)), true, Succeeded)
  }

  /**
    `unlock_pdf` itself: the same ladder, with the page-copy loop into the
    writer written out.
  */
  method UnlockPdf(doc: Doc, password: string) returns (r: UnlockResult)
    ensures r == Unlock(doc, password)
  {
    if doc.fault.OnRead? {
      return Caught(doc.fault.cause);
    }
    if !doc.encrypted {
      return Failure(NotProtected);
    }
    if doc.fault.OnDecrypt? {
      return Caught(doc.fault.cause);
    }
    if !doc.accepts(password) {
      return Failure(IncorrectPassword);
    }
    var writer: seq<Page> := [];
    for i := 0 to |doc.pages|
      invariant writer == doc.pages[..i]
    {
      writer := writer + [doc.pages[i]];
    }
    assert writer == doc.pages;
    if doc.fault.OnWrite? {
      return Caught(doc.fault.cause);
    }
    r := UnlockResult(Some(Written(writer)), true, Succeeded);
  }

  /**
    A readable document without encryption fails with the fixed message,
    whatever the password and whatever the handler would accept: decryption
    is never attempted.
  */
  lemma NotEncryptedFails(doc: Doc, password: string, other: string -> bool)
    requires !doc.fault.OnRead? && !doc.encrypted
    ensures Unlock(doc, password) == UnlockResult(None, false, NotProtected)
    ensures Unlock(doc.(accepts := other), password) == Unlock(doc, password)
  {
  }

  /** An encrypted document whose handler rejects the password fails with "Incorrect password". */
  lemma RejectedPasswordFails(doc: Doc, password: string)
    requires doc.encrypted && !doc.accepts(password)
    requires doc.fault.NoFault? || doc.fault.OnWrite?
    ensures Unlock(doc, password) == UnlockResult(None, false, IncorrectPassword)
  {
  }

  /**
    Success happens exactly for a document the library handles without
    raising, that is encrypted, and whose handler accepts the password.
  */
  lemma UnlockSucceedsIff(doc: Doc, password: string)
    ensures Unlock(doc, password).success <==>
      doc.fault.NoFault? && doc.encrypted && doc.accepts(password)
  {
  }

  /** An exception never escapes: it is reported with the prefix and its own text. */
  lemma ExceptionCaptured(doc: Doc, password: string)
    requires doc.fault.OnRead?
      || (doc.encrypted && doc.fault.OnDecrypt?)
      || (doc.encrypted && doc.accepts(password) && doc.fault.OnWrite?)
    ensures Unlock(doc, password) == UnlockResult(None, false, ErrorPrefix + doc.fault.cause)
  {
  }
}
