# Bulk-Mail `/sendmail` handler in Dafny

This project models the one piece of logic in the Bulk-Mail backend: the
`POST /sendmail` handler. The handler takes a message and a recipient list.
It checks the message, then the list, and turns a comma-separated list string
into an array of trimmed addresses. It then sends one email per recipient
through the SendGrid client, one after another. It records `{email, status:
"sent"}` or `{email, status: "failed", error}` for each recipient. Finally it
answers `{success: true, results}`, even when every send failed.

Two modules:

- `JsStrings` (`js_strings.dfy`) holds the two JavaScript built-ins the
  handler uses. `Trim` is `String.prototype.trim` over the ECMAScript
  whitespace and line-terminator characters. `Split` is
  `String.prototype.split` with a one-character separator. `Join` is the
  reference inverse of `Split`, and `TrimUnique` is an independent
  characterisation of `Trim`.
- `SendMail` (`sendmail.dfy`) holds the request, mail and reply values and
  the checks (`Validate`, `CheckList`, `Coerce`). It holds the dispatch fold
  as a specification (`Collect`, `Mails`, `Sends`, `Respond`). It holds the
  imperative handler: the `Mailer` class is the provider client, with a log
  of the mails handed to it. `Dispatch` is the `for` loop that pushes into
  `results`. `HandleSendMail` is the whole handler. Both methods are proved
  against the specification functions.

The provider is an oracle. `Mailer.answer(n)` is what the provider does with
the n-th mail handed to the client: it accepts it or throws an error with a
detail. Within one request the outcomes are `Shift(answer, k)`, where `k` is
the number of mails sent before. The sender address (`EMAIL_FROM` in the
environment) is a parameter `from`.

Request fields are `Value = Null | Str | Arr`. `Null` stands for a missing
field and for JSON `null`; both are falsy, like `""`. An array is truthy even
when empty, so an empty array fails on its length. A message given as an
array makes `msg.trim()` throw a `TypeError`. The outer `catch` turns that
into a 500 reply with the message "msg.trim is not a function" (the Node.js
wording).

The handler checks the list's length before splitting it. So a string such as `","` or `" "` passes the check and yields empty
recipients that are still sent to (`BlankRecipientsDispatched`). The
`success` flag is reproduced as written: it is `true` whenever the loop
runs.

## Model

| member | source | states |
|---|---|---|
| `JsStrings.IsSpace` | backend/index.js:53 | the characters `trim` strips include space, tab, line feed and carriage return, and never the list separator "," |
| `JsStrings.Trim` | backend/index.js:53 | `msg.trim()` leaves a string that neither starts nor ends with whitespace, no longer than the input and made only of the input's characters |
| `JsStrings.TrimSurrounded` | backend/index.js:53 | what `trim` removes is whitespace only: the input is the trimmed string with whitespace before and after it |
| `JsStrings.TrimUnique` | backend/index.js:63 | any whitespace around a string that neither starts nor ends with whitespace is removed by trim, and exactly that string remains |
| `JsStrings.TrimEmptyIff` | backend/index.js:53 | `msg.trim().length === 0` holds exactly when the message is all whitespace (or empty) |
| `JsStrings.TrimIdempotent` | backend/index.js:63 | trimming a trimmed address changes nothing |
| `JsStrings.Split` | backend/index.js:63 | `split(",")` gives one more piece than there are commas, and no piece contains a comma |
| `JsStrings.SplitChars` | backend/index.js:63 | every character of every piece of `split` comes from the split string |
| `JsStrings.JoinSplit` | backend/index.js:63 | joining the pieces of `split` with the separator gives the original string back |
| `JsStrings.SplitJoin` | backend/index.js:63 | splitting a join of comma-free pieces gives the pieces back |
| `JsStrings.TrimEach` | backend/index.js:63 | `.map(e => e.trim())` keeps the number of pieces, and entry k is piece k trimmed |
| `SendMail.Coerce` | backend/index.js:61-64 | an array list is used unchanged; a string list becomes (number of commas + 1) comma-free, trimmed recipients, recipient k being piece k of the split, trimmed |
| `SendMail.Truthy` | backend/index.js:53-57 | `x` is falsy (so `!x` is true) exactly for a missing or `null` field and for `""`; every array is truthy, even an empty one |
| `SendMail.Validate` | backend/index.js:53-64 | a request goes on only with a string message that is not all whitespace, and then with the coerced list of at least one recipient; conversely, such a message with a list that is present and not of length zero always goes on, with the coerced list |
| `SendMail.CheckList` | backend/index.js:57-64 | the list check goes on exactly when the list is present and not of length zero, and then with the given message and the coerced list; otherwise it rejects with 400 "Email list is empty" |
| `SendMail.Record` | backend/index.js:76-82 | the entry for one recipient names that recipient; it is "sent" exactly when the send succeeded, else "failed" with the send's error detail |
| `SendMail.Collect` | backend/index.js:66-83 | the loop's `results` has one entry per recipient, in order: entry i names recipient i and is "sent" or "failed" with the error detail, as send i did |
| `SendMail.Mails` | backend/index.js:68-75 | the loop hands the provider one mail per recipient, in order, each to that recipient with the configured sender, the subject "BulkMail Message" and the message as text |
| `SendMail.Sends` | backend/index.js:53-83 | a request sends no mail exactly when it is rejected, and otherwise one mail per recipient |
| `SendMail.Respond` | backend/index.js:53-90 | the reply says `success: true` exactly when the request passes the checks, and then, and only then, has status 200 and carries `results`; every reply is 200, 400 or 500 |
| `SendMail.Mailer.Send` | backend/index.js:70-75 | one provider call appends its mail to the client's log and gets the provider's answer to that call |
| `SendMail.Dispatch` | backend/index.js:66-83 | the `for` loop sends exactly the mails of `Mails`, in order, whatever the outcomes, and builds exactly the `results` of `Collect` |
| `SendMail.HandleSendMail` | backend/index.js:49-91 | the handler sends exactly the mails of `Sends` and answers exactly `Respond` for the outcomes the provider gave |
| `SendMail.Resubmit` | backend/index.js:49-85 | submitting the same request twice sends every mail twice; nothing suppresses a repeat |
| `SendMail.MessageCheckedFirst` | backend/index.js:53-55 | the message is rejected with 400 "Message content is empty" exactly when it is missing, empty or all whitespace, whatever the list; then nothing is sent |
| `SendMail.ListCheckedSecond` | backend/index.js:57-59 | with a valid message, the list is rejected with 400 "Email list is empty" exactly when it is missing, `""` or `[]`; then nothing is sent |
| `SendMail.ArrayMessageFails` | backend/index.js:87-90 | a message that is an array makes `msg.trim` throw, and the reply is 500 with `success: false`; nothing is sent |
| `SendMail.BlankRecipientsDispatched` | backend/index.js:57-64 | a non-empty list string of commas and blanks passes the checks and yields (commas + 1) empty recipients, each still sent to |
| `SendMail.BlankPieces` | backend/index.js:63 | every piece of a string of commas and blanks trims to the empty string |
| `SendMail.CoerceJoined` | backend/index.js:62-64 | a comma-joined string of addresses padded with blanks coerces to exactly those addresses |
| `SendMail.ResultsFollowRecipients` | backend/index.js:66-85 | an accepted request answers 200 with `success: true` and one entry per recipient in input order; entry i is "sent" exactly when send i succeeded, else "failed" with that send's error |
| `SendMail.SuccessEvenIfAllFailed` | backend/index.js:85 | the envelope says `success: true` even when every send failed |
| `SendMail.EntryDependsOnOwnSend` | backend/index.js:69-82 | each entry depends on its own send alone, so a failure elsewhere in the list changes nothing about it |
| `SendMail.OneSendPerRecipient` | backend/index.js:68-75 | the addresses sent to are the recipients, in order, with each duplicate sent to again; every mail has the sender, the fixed subject and the message |
| `SendMail.PartialFailureExample` | backend/index.js:66-85 | with recipients A, B, C where only B fails: A "sent", B "failed" with its error, C "sent", and `success: true` |

## Left out

- The SendGrid client's internals and `sgMail.setApiKey` (backend/index.js:18) are not modelled. The provider is an oracle (`Mailer.answer`). A send's error detail (`err.response?.body || err.message`) is an opaque string.
- Environment checks and `process.exit` (backend/index.js:14-23) are left out. They are start-up I/O. The sender address is the parameter `from`.
- The MongoDB connection with retry (backend/index.js:26-41) is left out. It uses timers and process exit, and the send path never uses it.
- The `/health` endpoint, Express and CORS set-up, and `app.listen` are left out. They are HTTP plumbing.
- `console.log` and `console.error` are left out. Logging has no effect on the reply.
- Overlapping requests are not modelled. Within one request, `await` makes the sends sequential, and the model keeps that order. Two requests that interleave their sends on the shared `sgMail` client are not captured. `Resubmit` covers only two requests that run one after the other.
- Request fields that are numbers, booleans or objects are left out. So are arrays with non-string elements. They have no counterpart in a typed model. The only dynamic-type error modelled is `msg.trim` on an array message (the 500 path).
- The 500 reply's text is Node.js's wording of the `TypeError`. Other JavaScript engines may word it differently.
- Strings are sequences of characters, not UTF-16 code units. The handler only tests `.length` for zero, which is the same either way.
- frontend/src/App.jsx is not part of this model. It covers the UI, spreadsheet parsing, the HTTP client and its pre-send checks, which repeat the backend's checks.
