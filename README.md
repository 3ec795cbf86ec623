# Pneumonia detection web app: a verified model of its request logic

The application is a small Flask site around a chest X-ray classifier. A user uploads an
X-ray together with the patient's name, age and gender on the home page. The server saves
the image, asks the classifier for a label (`NORMAL` or `PNEUMONIA`) and a confidence
percentage, shows them and remembers them in a single global slot, `latest_prediction`.
A chatbot endpoint answers short questions: about the last prediction, with a download
link for a PDF report of it, from a fixed keyword table, or with a fallback sentence. The
report route turns the six values carried in the link back into a PDF whose file name is
built from a timestamp and a sanitised patient name, and whose impression line depends
on the label.

This project models that logic in Dafny and proves its properties:

- `text.dfy` (`Text`): Python's `k in s`, ASCII `str.lower` and `str.strip` over Python's
  whitespace set, each with the facts the rest of the model needs. It also holds splitting
  on a separator and joining back. The application does not call these itself: they stand
  for the way the report route matches a path segment by segment.
- `prediction.dfy` (`Prediction`): the two labels, a diagnosis (label and confidence text)
  and the record kept in the slot.
- `reports.dfy` (`Reports`): the safe patient name, the `%Y%m%d_%H%M%S` timestamp, the
  report file name and the impression sentence.
- `routes.dfy` (`Routes`): the report link the chatbot builds and how the route
  `/report/<patient_name>/<age>/<gender>/<filename>/<result>/<confidence>` takes a path
  apart.
- `chatbot.dfy` (`Chatbot`): the chatbot's reply as a function of the normalised message
  and the slot, and its priority properties.
- `app.dfy` (`WebApp`): the class `App`, whose field `latest` is the slot. Its method
  `Index` is the upload page and `ChatbotResponse` (with `Answer`) is the chatbot endpoint; `ScanTable`
  is the endpoint's first-match loop over the keyword table. The module also holds the
  report route and lemmas about runs of requests.
- `widget.dfy` (`ChatWidget`): the chat page script's test for showing a reply as a link
  (see Findings).

The classifier's output, the name `secure_filename` makes of the uploaded file, and the
current time are inputs to the model: they come in the request value or as a parameter.

## Model

| member | source | states |
|---|---|---|
| Text.Lower | app.py:193 | lower-casing keeps the length and maps each character on its own, ASCII capitals to small letters |
| Text.LowerIsLower | app.py:193 | after lower-casing no ASCII capital is left, and lower-casing again changes nothing |
| Text.LowerNoCapital | app.py:193 | a text without ASCII capitals is its own lower-case form |
| Text.IsSpace | app.py:193 | the characters `str.strip()` removes, Python's whitespace set; `Strip`, `StripIdempotent` and `StripNoSpace` state what stripping removes |
| Text.Strip | app.py:193 | the result is the block of the input after its leading whitespace, only whitespace follows it, and it neither starts nor ends with whitespace |
| Text.StripIdempotent | app.py:193 | stripping twice is stripping once |
| Text.StripNoSpace | app.py:80 | stripping a text without whitespace returns it unchanged |
| Text.StripNoCapital | app.py:193 | stripping a text without ASCII capitals leaves none, so lower-casing after it changes nothing |
| Text.Contains | app.py:207 | Python's `k in s`: `k` occurs in `s` as a contiguous block; `ContainsAt`, `Occurrence`, `ContainsTrans` and `MissingChar` state its properties |
| Text.ContainsAt | app.py:207 | a block at any position is contained in the text |
| Text.Occurrence | app.py:207 | every containment has a position where the block starts |
| Text.ContainsTrans | app.py:207 | a text holding `m` holds everything `m` holds |
| Text.MissingChar | app.py:207 | a text lacking one of the characters of `k` does not contain `k` |
| Text.Split | app.py:181 | the route matcher's view of a path: splitting gives at least one piece and no piece holds the separator |
| Text.JoinSplit | app.py:181 | joining the pieces of a split with the separator gives back the text |
| Text.SplitAround | app.py:181 | splitting around one separator splits each side on its own |
| Text.SinglePieceIff | app.py:181 | a text splits into a single piece exactly when it has no separator |
| Prediction.LabelName | app.py:21 | each label's name is non-empty and slash-free, and it is "PNEUMONIA" exactly for the pneumonia label |
| Reports.KeepChar | app.py:80 | the filter's test `c.isalnum() or c in ('_', '-')`; `Keep`, `KeepCounts`, `KeepIsSubsequence` and `KeepAllKept` state its effect on a name |
| Reports.Keep | app.py:80 | the filter never lengthens the name and leaves only letters, digits, `_` and `-` |
| Reports.KeepCounts | app.py:80 | each kept character occurs in the result as often as in the input; no other character occurs |
| Reports.KeepIsSubsequence | app.py:80 | the result is the input with characters deleted, in the original order |
| Reports.KeepConcat | app.py:80 | the filter works character by character: filtering a concatenation filters each part |
| Reports.IsAlnum | app.py:80 | the `c.isalnum()` test, for ASCII letters and digits only (see Left out); its consequences are stated by `Keep` and `SafeName` |
| Reports.KeepAllKept | app.py:80 | a name made only of kept characters passes the filter unchanged |
| Reports.KeptHasNoSpace | app.py:80 | the `strip()` after the filter never removes anything |
| Reports.OrDefault | app.py:80 | the final `or "patient"`: the text itself unless it is empty; `SafeName` and `SafeNameIsDefault` state when the default is taken |
| Reports.SafeName | app.py:80 | the safe name is never empty and holds only kept characters; it is the filtered name when anything is kept, and "patient" otherwise |
| Reports.SafeNameIsDefault | app.py:80 | the safe name is "patient" exactly when nothing is kept or what is kept is "patient" |
| Reports.SafeNameIdempotent | app.py:80 | sanitising a sanitised name changes nothing |
| Reports.SafeNameExample | app.py:80 | "Jo Li!" becomes "JoLi" |
| Reports.Pad | app.py:81 | the zero-padded number has exactly the requested width and only digits |
| Reports.ValuePad | app.py:81 | reading a zero-padded number back gives the number |
| Reports.Stamp | app.py:81 | the timestamp has 15 characters: digits, with `_` at position 8 |
| Reports.StampRoundTrip | app.py:81 | the timestamp can be read back into the same date and time |
| Reports.StampChars | app.py:81 | the timestamp is made of file-name characters |
| Reports.Assemble | app.py:82 | `Report_`, the stamp, `_`, the safe name and `.pdf`, each at its position |
| Reports.AssembleChars | app.py:82 | the file name holds only letters, digits, `_`, `-` and `.`, so no `/` |
| Reports.ReportName | app.py:80-82 | the report name starts with "Report_", then come the timestamp of `now`, `_` and the safe name, and it ends with ".pdf" |
| Reports.ReportNameChars | app.py:80-83 | the report name has no `/` and holds only file-name characters, so it stays inside the reports folder |
| Reports.ReportNameInjective | app.py:80-82 | two report names are equal exactly when the times and the safe names are |
| Reports.Impression | app.py:113 | the impression is the pneumonia sentence exactly when the result text is "PNEUMONIA", and the all-clear sentence otherwise |
| Routes.Segments | app.py:217-223 | the link carries six values |
| Routes.ReportLink | app.py:217-224 | the `url_for` link: the route's path with the six values as segments; `LinkRoundTrip` and `ParsedPathIsLink` state that the route reads them back |
| Routes.SegmentOk | app.py:181 | what a `<name>` placeholder of the route accepts, a non-empty text without `/`; `LinkRoundTrip`, `ParsedPathIsLink` and `BlankAgeBreaksLink` state its effect on the chatbot's link |
| Routes.ParseReportPath | app.py:181 | the route's match: eight pieces, the first empty, then "report", then six non-empty values; `LinkRoundTrip` and `ParsedPathIsLink` state that it inverts `ReportLink` |
| Routes.SplitJoin | app.py:181 | splitting a join gives at least the joined pieces; exactly them when no piece holds the separator, more of them otherwise |
| Routes.LinkRoundTrip | app.py:181-182 | the route receives exactly the values a link was built from when every value is non-empty and slash-free, and does not match the link otherwise |
| Routes.ParsedPathIsLink | app.py:181 | every path the route matches is the link of the values it extracts |
| Chatbot.AnyIn | app.py:207 | `any(k in user_message for k in …)`: some phrase of the list occurs in the message; `ResultPhrasesIff` and `ReportPhrasesIff` state it for the two lists |
| Chatbot.FirstHit | app.py:230-232 | the position of the first table key in the message: every earlier key is absent, and it is the table's length when no key occurs |
| Chatbot.Normalize | app.py:192-193 | `(message or "").lower().strip()`; `NormalizeIdempotent` and `MissingMessageFallsBack` state its properties |
| Chatbot.NormalizeIdempotent | app.py:192-193 | a normalised message has no ASCII capital and no whitespace at either end, and normalising it again changes nothing |
| Chatbot.ArgsOf | app.py:217-223 | the six stored values handed to `url_for`; `ReportReply` and `ChatLinkDownloadsReport` state where they end up |
| Chatbot.KeywordReply | app.py:229-235 | the table's reply or the fallback; `KeywordReplyAt` and `TableOrder` state it is the first matching entry's value |
| Chatbot.Reply | app.py:206-235 | the whole decision; `ResultWins`, `ReportNext`, `TableOrder`, `NoReplyIsReportHelp` and `MissingMessageFallsBack` state its priorities |
| Chatbot.ResultReply | app.py:208-211 | with no stored record the reply is exactly the "no recent prediction" sentence; otherwise it starts with the lead and contains the stored label and confidence |
| Chatbot.ReportReply | app.py:216-226 | with no stored record the reply is exactly the "no report" sentence; otherwise it is the lead followed by the link built from the stored values |
| Chatbot.ResultPhrasesIff | app.py:207 | the result check fires exactly when the message contains "result" or "last prediction" |
| Chatbot.ReportPhrasesIff | app.py:215 | the report check fires exactly when the message contains "report" or "pdf" |
| Chatbot.ResultWins | app.py:207-212 | a message containing "last prediction", "my result" or "result" gets the last-prediction reply, whatever else it holds |
| Chatbot.ReportNext | app.py:215-227 | a message without a result phrase that contains "report" or "pdf" gets the download reply |
| Chatbot.TableOrder | app.py:195-235 | otherwise the reply is the value of the first key in table order found in the message, and the fallback when none is |
| Chatbot.KeywordReplyAt | app.py:229-235 | the table's reply is the value at the first matching entry, or the fallback past the end |
| Chatbot.ReportHelpIsUnique | app.py:195-204 | no other table entry has the reply of the "report" entry |
| Chatbot.ReportEntryUnreachable | app.py:200-215 | a message the table would answer with its "report" entry has already been answered by the report check, so no reply taken from the table is that entry's text |
| Chatbot.NoReplyIsReportHelp | app.py:200-227 | no message and no slot content ever produce the "report" entry's reply |
| Chatbot.MissingMessageFallsBack | app.py:192-235 | an absent message normalises to the empty text and gets exactly the fallback |
| Chatbot.HelloExample | app.py:196 | "hello" gets the greeting |
| Chatbot.ThankYouExample | app.py:203 | "thank you" gets the last table entry's reply |
| Chatbot.ThankYouTable | app.py:195-204 | "thank you" contains none of the seven earlier keys, "thanks" included |
| Chatbot.SuggestedQuestionExample | app.py:201-215 | "how to download report?", one of the questions the "how" reply suggests, gets the download reply |
| WebApp.ScanTable | app.py:229-235 | the loop returns the value of the first key found in the message, or the fallback |
| WebApp.App.constructor | app.py:30 | the slot starts empty |
| WebApp.App.Index | app.py:142-176 | the new slot and the response are those of the request: the slot is replaced only by a successful upload |
| WebApp.App.ChatbotResponse | app.py:190-193 | the reply is the chatbot's reply to the normalised message for the current slot |
| WebApp.App.Answer | app.py:206-235 | the answer to a normalised message is the chatbot's reply for the current slot: result check, report check, table, fallback |
| WebApp.HasFile | app.py:152 | `if file:`, a POST whose file part has a non-empty client file name; `SlotChangesOnlyOnUpload` and `PageWithoutUpload` state that nothing is stored or shown without it |
| WebApp.Succeeds | app.py:153-156 | neither `file.save` nor `model_predict` raises; `SlotChangesOnlyOnUpload` and `FailedUploadKeepsSlot` state that the slot is replaced exactly then |
| WebApp.NextSlot | app.py:146-166 | the slot after one request; `SlotChangesOnlyOnUpload`, `UploadStoresRequest`, `FailedUploadKeepsSlot` and `ReplayIsLastUpload` state how it changes |
| WebApp.ResponseFor | app.py:144-176 | the response to one request; `PageWithoutUpload`, `PageShowsStoredRecord` and `FailedUploadKeepsSlot` state what it shows |
| WebApp.SlotChangesOnlyOnUpload | app.py:146-166 | the slot changes only on a POST with a file; a successful upload replaces it, anything else leaves it |
| WebApp.UploadStoresRequest | app.py:147-166 | after an upload the slot holds exactly the request's name, age and gender (or "Unknown", "", ""), the secured file name and the diagnosis |
| WebApp.PageWithoutUpload | app.py:144-176 | without a file no result, confidence or file name is shown; a GET shows nothing at all, and a POST shows the form fields |
| WebApp.PageShowsStoredRecord | app.py:159-176 | a successful upload shows exactly what it stored |
| WebApp.FailedUploadKeepsSlot | app.py:153-156 | an upload the save or the predictor fails on is a server error and leaves the slot as it was |
| WebApp.LastUpload | app.py:159-166 | the record of a successful upload of the run after which no request succeeds, and none when no request succeeds |
| WebApp.ReplaySnoc | app.py:142-166 | handling one more request is one more slot step |
| WebApp.ReplayIsLastUpload | app.py:142-166 | after any run of requests the slot holds the last successful upload's record, or the starting slot when there was none |
| WebApp.AskAfterUpload | app.py:207-212 | a fresh application answers a result question with the "none" sentence until a successful upload, and then with its stored label and confidence |
| WebApp.ReportRoute | app.py:181-183 | the report route up to the file name and the impression; `ChatLinkDownloadsReport` and `BlankAgeBreaksLink` state what it makes of the chatbot's link |
| WebApp.ChatLinkDownloadsReport | app.py:181-183 | the chatbot's link reaches the route exactly when every stored value is a proper segment; the report is then named after the stored patient, with the pneumonia impression exactly for the pneumonia label |
| WebApp.BlankAgeBreaksLink | app.py:217-224 | a stored blank age (a field left empty, or a missing one defaulted to "") gives a link the route turns away |
| ChatWidget.DownloadReplyIsNeverALink | chatbot.js:50-58 | the script as written never shows the download reply as a link |
| ChatWidget.LinkAsWritten | chatbot.js:50-58 | the script's test as written: only a reply starting with "/report" becomes a link; `DownloadReplyIsNeverALink` states its effect |
| ChatWidget.LinkCorrected | chatbot.js:50-58 | the corrected test: the text after the download lead becomes the link; `DownloadReplyLinksToReport` states its effect |
| ChatWidget.DownloadReplyLinksToReport | chatbot.js:50-58 | with the corrected test the download reply links to the route with the stored values, the route accepts it exactly when they are proper segments, and replies that were links stay links |

## Left out

- Reports.IsAlnum: ASCII letters and digits only. Python's `isalnum` also accepts non-ASCII letters and digits, so SafeName is stated for ASCII names.
- Text.Lower: ASCII only. Python's `lower` also maps non-ASCII capitals, and a few of them change the length.
- Reports.Stamp: years 1000 to 9999 only (`DateTime.Valid`). Other years may not be padded to four digits by `strftime`, depending on the platform.
- Reports.ReportName: takes the current time as a parameter instead of reading `datetime.now()`. The PDF's second call to `now()` for its "Date" line is not modelled.
- Routes.ReportLink: `url_for`'s percent-encoding is not modelled; the link is the plain concatenation of the values. Werkzeug's merging of repeated slashes is not modelled either; the route is matched by splitting on `/`.
- `model_predict` (app.py:35-60): TensorFlow inference, floating-point rounding and random re-sampling. Its result is an input: `FilePart.diagnosis`, where `None` means it raised.
- `secure_filename`: a library function, not part of this model. Its output is an input, `FilePart.savedName`. An empty secured name makes `file.save` target the upload folder, which is modelled as a server error.
- Saving the file and the PDF document assembly (app.py:85-135), the confidence chart (app.py:65-74) and `send_file`: file I/O and foreign libraries. The report route is modelled up to the file name and the impression sentence.
- `os.path.exists` checks inside the report: file-system state.
- Flask's request and response plumbing: `render_template`, `jsonify`, and `get_json` on bodies that are not JSON. The chat message is modelled as an optional string; a JSON value that is not a string is left out.
- Concurrent requests sharing the global slot: concurrency.
- The chat page script apart from its link test: DOM, `localStorage`, `fetch`.
- `newt.py`: a one-off script that prints the model's output shape.

The safe name is easily described as "patient" exactly when nothing is kept. The model
follows the code instead: for the input "patient" something is kept and the result is
still "patient", so `SafeNameIsDefault` states the exact condition.

## Findings

| source | as written | input that shows it | evidently intended | confidence | as-written member | corrected member |
|---|---|---|---|---|---|---|
| chatbot.js:50 | the script shows a reply as a "Download Report" link only when the reply starts with "/report", but the server's download reply starts with "📄 Download your latest report here: " (app.py:224) | upload an X-ray, then send "pdf": the reply is shown as plain text and nothing is clickable | the download reply is shown as a link to the path after its lead sentence | high, not executed | ChatWidget.DownloadReplyIsNeverALink | ChatWidget.DownloadReplyLinksToReport |
