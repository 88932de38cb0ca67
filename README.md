# PDF password remover — a Dafny model of the batch driver and the unlock handler

The application takes a batch of uploaded PDFs and a password setting. It
removes the encryption from each document it can open, reports one
`(name, status, message)` result per upload, and offers the unlocked copies
for download: a single copy on its own, several bundled as
`unlocked_pdfs.zip`. A serverless function is meant to do the same for one
base64-encoded document: it validates the request in a fixed order, hands the
document and password to pdf-lib, and answers with a JSON response. Whether
pdf-lib's load and save actually remove the encryption is library behaviour
and is not claimed here.

This project models the decision logic of that pipeline and proves its
invariants:

- `PosixPath`: `os.path.splitext` for POSIX paths, as a pure function.
  Its contract says what the split is: root plus extension is the path; the
  extension is empty or a dot with no dot or slash after it; leading dots of
  the last component stay in the root. A lemma proves this split is the only
  one with those properties.
- `Decryptor`: `unlock_pdf`. The PDF library is an oracle. A `Doc` records
  whether the document is encrypted, which passwords its security handler
  accepts, its pages, and where the library raises an exception: on opening,
  on trying the password, or on writing. `PdfBytes` stands for the writer's
  output and keeps only the pages written into it.
- `Archiver`: `create_zip_file`, modelled as the ordered list of entries it
  writes, and the download decision after the batch.
- `Batch`: the name-to-password map built from the password settings, the
  per-file result, the output naming rule and the batch loop.
- `Driver`: the two shapes of `main()`. `RunOnce` is the earlier copy
  (`archive/main_v1.py`), which shows results only on the run in which the
  button is pressed. `Session` is the current `main.py`, which keeps the last
  batch in session state and replaces it after each batch.
- `RemovePassword`: the serverless `handler`. It is a ladder of guards
  inside one `try`, and every throw becomes a 400 response. JSON parsing,
  base64 decoding, pdf-lib's load and save, and the final encoding are
  fields of a `Library` value. Parsing, decoding, load and save may throw;
  the final `toString('base64')` is modelled as a total function.

The logic of `unlock_pdf`, `create_zip_file` and the batch part of `main()`
is the same in `main.py` and `archive/main_v1.py`. The table below cites
`main.py`. The earlier copy has the same code at these lines:

| main.py | archive/main_v1.py | what |
|---|---|---|
| 9-41 | 8-40 | `unlock_pdf` |
| 19-20, 23-24 | 18-19, 22-23 | not encrypted, incorrect password |
| 30-31, 38 | 29-30, 37 | page copy, success |
| 40-41 | 39-40 | exception handler |
| 43-54 | 42-53 | `create_zip_file` |
| 91-114, 117 | 87-110, 113 | password map, processing offered |
| 123-140 | 120-145 | batch loop |
| 132-133 | 135-136 | output name |
| 158-187 | 161-197 | download section |
| 60-64, 144-148 | — | session state (current copy only) |

Two behaviours of the code are worth stating outright. An upload whose name
has no password is never opened, so it is reported as Skipped even when it is
not encrypted (main.py:127, 138-139); `Batch.TwoFileExample` proves that
outcome. When two uploads get the same output name, both pairs are kept, and
both are written into the archive as separate entries (main.py:134, 50-51);
neither replaces the other.

## Model

| member | source | states |
|---|---|---|
| `PosixPath.LastIndex` | main.py:132 | the last position of a character, or -1; nothing after it matches (the search `splitext` makes for the last `/` and the last `.`) |
| `PosixPath.SplitExt` | main.py:132 | root + extension == path; the extension is empty or starts with `.` and holds no further `.` or `/`; a non-empty extension leaves a non-dot character of the last component in the root; an empty one means no dot of the last component follows a non-dot of it |
| `PosixPath.SplitExtUnique` | main.py:132 | any split with the properties above is the one `SplitExt` returns |
| `PosixPath.SplitExtExamples` | main.py:132 | `report.pdf` → (`report`, `.pdf`), `a.tar.gz` → (`a.tar`, `.gz`), `.bashrc` and `..pdf` keep no extension, a dot in a directory name is not an extension |
| `PosixPath.Stem` | main.py:132 | the root is a prefix of the path |
| `Decryptor.Unlock` | main.py:9-41 | the success flag is set exactly when bytes are returned; on success the bytes hold the reader's pages in order and the message is "Success"; a failure message is "PDF is not password protected", "Incorrect password" or starts with "Error processing PDF: " |
| `Decryptor.Caught` | main.py:40-41 | an exception's result has no bytes, is not a success, and its message is "Error processing PDF: " followed by exactly the exception's text |
| `Decryptor.UnlockPdf` | main.py:14-38 | the ladder with its page-copy loop into the writer computes exactly `Unlock` |
| `Decryptor.NotEncryptedFails` | main.py:19-20 | a readable, unencrypted document gives (None, False, "PDF is not password protected") for any password, and the result does not depend on which passwords the handler would accept |
| `Decryptor.RejectedPasswordFails` | main.py:23-24 | an encrypted document whose handler rejects the password gives (None, False, "Incorrect password") |
| `Decryptor.UnlockSucceedsIff` | main.py:14-38 | success exactly when the library raises nothing, the document is encrypted and the password is accepted |
| `Decryptor.ExceptionCaptured` | main.py:40-41 | an exception at any stage gives (None, False, "Error processing PDF: " + its text); nothing propagates |
| `Archiver.ZipOf` | main.py:43-54 | reading the archive back gives the input pairs, in order |
| `Archiver.CreateZipFile` | main.py:43-54 | one entry per pair, in input order, entry name and content equal to the pair's; reading the archive back gives the input |
| `Archiver.Downloads` | main.py:158-187 | nothing is offered for no files; exactly one file is offered directly; more than one is offered as `unlocked_pdfs.zip`, whose members are the files in order, together with the list of pairs from which the per-file buttons are made |
| `Archiver.OfferDownloads` | main.py:158-187 | the download section, building the archive only for several files, gives exactly `Downloads` |
| `Batch.Assignment` | main.py:91-114 | the map's keys are uploaded names; no recorded password is empty; every uploaded name whose applicable field is non-empty is mapped to that field's text |
| `Batch.AssignPasswords` | main.py:91-117 | the map holds exactly the uploaded names whose applicable field is non-empty, each with that field's text; no empty password is recorded; the shared mode with a non-empty password covers every uploaded name and with an empty one gives an empty map; processing is offered (map non-empty) exactly when some upload has a non-empty password |
| `Batch.OutputName` | main.py:132-133 | the name starts with `unlocked_`, ends with `.pdf`, and the middle is a prefix of the input name that, followed by its extension, gives back the input name |
| `Batch.OutputNameReport` | main.py:132-133 | `report.pdf` becomes `unlocked_report.pdf` |
| `Batch.OutputNameHidden` | main.py:132-133 | `.hidden` keeps its leading dot: `unlocked_.hidden.pdf` |
| `Batch.OutputNamesCollide` | main.py:132-134 | `a.pdf` and `a` both become `unlocked_a.pdf`: names are not made unique |
| `Batch.Status.Label` | main.py:135-139 | each stored status text ends with a space and the status word (`Success`, `Failed`, `Skipped`) |
| `Batch.LabelInjective` | main.py:135-139 | distinct statuses are stored as distinct texts |
| `Batch.Outcome.Row` | main.py:135-139 | the stored tuple is the upload's name, the status text and the message |
| `Batch.RowDeterminesOutcome` | main.py:135-139 | two results with the same stored tuple are the same result: storing the status as text loses nothing |
| `Batch.OutcomeOf` | main.py:127-139 | the result carries the upload's name; Skipped with "No password provided" exactly when the name has no password; Success exactly when `unlock_pdf` succeeds, with "Password removed successfully"; otherwise Failed with `unlock_pdf`'s message |
| `Batch.OutputOf` | main.py:131-134 | a pair exists exactly for a Success; it is named by the output-name rule and holds `unlock_pdf`'s bytes, which carry the upload's pages |
| `Batch.Outputs` | main.py:123-134 | every pair the batch appends is named with the `unlocked_` prefix |
| `Batch.SuccessIndices` | main.py:126-140 | the successful positions, in increasing order, each within the batch; a position is listed exactly when its result is Success |
| `Batch.OutputsMatchSuccesses` | main.py:126-140 | there are as many unlocked pairs as successes, and the k-th pair is the output of the k-th successful upload, so pairs keep the uploads' relative order and nothing comes from Failed or Skipped uploads |
| `Batch.OutputNamesFromSuccesses` | main.py:132-134 | every unlocked pair is named `unlocked_<stem>.pdf` after some successful upload |
| `Batch.ProcessBatch` | main.py:123-140 | one result per upload, in upload order, each the file's own outcome; the unlocked list is exactly the successes' pairs in order |
| `Batch.TwoFileExample` | main.py:126-139 | `a.pdf` (encrypted, password given) succeeds and `b.pdf` (no password) is Skipped; the only output is `unlocked_a.pdf`, offered directly |
| `Driver.RunOnce` | archive/main_v1.py:74-197 | processing is offered exactly when files are uploaded and the map is non-empty; a pressed button yields one result per upload and the download offer of the batch's pairs; otherwise no results and no download |
| `Driver.Session.constructor` | main.py:60-64 | a new session holds no results and no unlocked files |
| `Driver.Session.Rerun` | main.py:78-187 | a pressed button replaces the stored results and pairs with the new batch's; otherwise they are unchanged; while processing is offered the stored results are shown, and when there are any the stored pairs decide the download |
| `RemovePassword.Truthy` | functions/remove-password.js:8-14 | `undefined` and `null` are falsy; a string is truthy exactly when non-empty, a number exactly when non-zero, a boolean exactly when true |
| `RemovePassword.TryUnlock` | functions/remove-password.js:7-25 | a falsy body throws "Request body is empty" before anything is parsed; a parsed body with a falsy `fileBase64` throws 'Missing "fileBase64"'; a value comes back only when the body is truthy, parses, and both fields are truthy |
| `RemovePassword.BadRequest` | functions/remove-password.js:29-33 | the `catch` response has status 400, content type `application/json`, and an error body carrying the given text |
| `RemovePassword.ErrorText` | functions/remove-password.js:32 | the error text is the thrown message, or "Unknown error" when that is empty; never empty |
| `RemovePassword.Handle` | functions/remove-password.js:4-35 | every response has status 200 or 400 and content type `application/json`; 200 exactly when the body carries `unlockedBase64`; a 400 always names an error; an empty body gives 400 "Request body is empty" |
| `RemovePassword.EmptyBodyCheckedFirst` | functions/remove-password.js:8-10 | an empty or absent body gives the same 400 response whatever the libraries would do: it is checked before parsing |
| `RemovePassword.ParseErrorReported` | functions/remove-password.js:11 | a parse error gives 400 with its message (or "Unknown error") |
| `RemovePassword.MissingFieldsReported` | functions/remove-password.js:13-14 | a falsy `fileBase64` gives 400 'Missing "fileBase64"' whatever `password` holds; with `fileBase64` present, a falsy `password` gives 400 'Missing "password"' |
| `RemovePassword.LibraryErrorReported` | functions/remove-password.js:16-33 | a throw while decoding, loading or saving gives 400 with that message (or "Unknown error") |
| `RemovePassword.SucceedsIff` | functions/remove-password.js:16-25 | status 200 exactly when the body is present, parses, both fields are truthy and decode, load and save all return; the body's only field is then the encoding of the saved bytes |

## Left out

- PDF parsing, the standard security handler's encryption (ISO 32000-1, section 7.6) and the writer's serialisation are library code. They appear only through the `Doc` oracle, and an output is represented by the pages written into it.
- Decryptor.UnlockPdf: an exception raised by `add_page` partway through the page loop is modelled like one raised when the writer serialises. Both give the same result.
- Decryptor.Unlock: the check that the output is not encrypted is structural. `PdfBytes` has no encryption envelope, and nothing about byte-level re-reading is claimed.
- The ZIP container and DEFLATE compression are not modelled. The archive is its ordered entry list. Duplicate names are kept as separate entries, and nothing is claimed about which one an extractor would return.
- Streamlit presentation is not modelled: widgets, headers, the result colouring (main.py:150-156), the `status_text` messages and the download buttons' labels and MIME types. The progress ratio `(i + 1) / len(uploaded_files)` (main.py:140) is floating-point UI and is also left out.
- `file.seek(0)` (main.py:129) is not modelled, because the model's documents are values that every read sees from the start.
- Session state is modelled only as "the stored lists are replaced after the batch and read by later reruns". Streamlit's rerun mechanics and widget keys are not modelled, nor the error Streamlit raises for two uploads that share a name and so share a field key.
- `Batch.Status.Label` holds the status texts with their emoji. The display's substring tests on them are presentation and are not modelled.
- Archiver.Downloads: when two pairs share a name (two uploads named `a.pdf`, or `a.PDF` and `a.pdf`, which both become `unlocked_a.pdf`), Streamlit raises on the second download button, whose key `download_<name>` repeats (main.py:186, archive/main_v1.py:196). The model offers both pairs and does not model that error.
- component.py (styling, CSS, reading local images), src/app.js and public/app.js (browser DOM, prompts, `fetch`, Blob downloads, and their own `unlocked_<name>` naming) are not part of this model.
- RemovePassword.Handle: `JSON.stringify` of the response body is not modelled; the body is a structured value. `console.log` and `console.error` are left out. `async`/`await` is modelled as plain sequencing, because a rejected promise reaches the same `catch`.
- RemovePassword.Handle: `JSON.parse`, base64 decoding, pdf-lib's load and save, and `toString('base64')` are opaque functions. No base64 round trip is claimed, since `save()` returns a byte array whose `toString('base64')` need not be base64. Truthiness ignores NaN and BigInt, which JSON cannot produce.
