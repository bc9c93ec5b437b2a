# Chat bot intake conversation, modelled in Dafny

The chat bot greets a user, asks whether a service is needed, asks whether it is an
emergency or a normal request, and then takes the user's details in one free-text
message. Emergency details are mailed to the operator. Normal details are appended
as a row to a spreadsheet. The whole conversation state is one process-wide record
`user_state = {"step": None, "data": {}}`, and the function `process_message`
updates it in place on every request.

The project has three modules:

- `PyStr` (`pystr.dfy`) holds the Python string operations the decisions rest on:
  `str.lower()` (`Lower`), `str.strip()` (`Strip`, with Python's `str.isspace`
  character set) and the substring test `pat in s` (`Contains`). Each comes with its
  reference meaning: the characters that are kept, the margins that are cut, and an
  occurrence index. `PyStr` also proves the facts the chat decisions need about them.
- `Chat` (`chat.dfy`) describes the session record (`State`), the fixed replies
  (`Reply`, with the exact texts in `ReplyText`), and the one collaborator call a turn
  can make (`Call`: `send_gmail(subject, body)` or `save_to_sheet(values)`). `Turn`
  is one call of `process_message` as a pure transition. `Run` is a sequence of calls.
  The module also proves the properties of each step, of the normalisation
  `message.lower().strip()`, and of whole conversations.
- `App` (`app.dfy`) holds the class `ChatBot`. Its fields `step` and `data` are the
  global record, and a ghost log `calls` records every collaborator call.
  `ProcessMessage` follows the source's chain of `if` blocks, assigning the fields in
  place. Its postcondition says that the new fields, the reply and the extended call
  log are exactly what `Turn` gives for the old record.

The collaborators are parameters. `emailFails` says whether `send_gmail` raises.
`sheetFails` says whether `save_to_sheet` raises. A mail failure is caught and only
printed, so it changes nothing. A sheet failure escapes `process_message` and is
modelled as the outcome `Raised`. When that happens, the step stays at
`"normal_details"` and `"info"` has already been overwritten.

The step is kept as the source keeps it: `None` or a string. That makes "the step is
always one of the five values" a real invariant (`State.Valid`). It also shows that
the last line of `process_message`, the reply "Please follow instructions", is dead
code.

`app.py` treats any message in a detail step as complete details. It does not
guard against empty messages: from `None`, an empty message starts the conversation
like any other. An emergency only sends mail and appends no row. The sheet append's
failure propagates out of `process_message` instead of being absorbed.

## Model

| member | source | states |
|---|---|---|
| PyStr.IsSpace | app.py:59 | the characters `strip()` removes are Python's `str.isspace` set; no visible ASCII character is among them |
| PyStr.LowerChar | app.py:59 | an upper-case ASCII letter becomes the same letter in lower case (code point plus 32); every other character is unchanged; the result is never an upper-case ASCII letter and is whitespace exactly when the input is |
| PyStr.Lower | app.py:59 | `message.lower()` keeps the length and lower-cases each character in place |
| PyStr.LeadingSpaces | app.py:59 | counts exactly the whitespace run at the front: all counted characters are whitespace and the next one is not |
| PyStr.TrailingSpaces | app.py:59 | counts exactly the whitespace run at the back: all counted characters are whitespace and the one before is not |
| PyStr.Strip | app.py:59 | `strip()` leaves no whitespace at either end of the result and never lengthens the string |
| PyStr.StripCutsPadding | app.py:59 | the input is the stripped result with only whitespace added on either side |
| PyStr.StripPadded | app.py:59 | stripping is determined by those two properties: a trimmed string with whitespace around it strips back to itself |
| PyStr.StripIgnoresPadding | app.py:59 | extra whitespace around a message does not change what `strip()` keeps |
| PyStr.StripIdempotent | app.py:59 | stripping twice is stripping once |
| PyStr.StripLowerCommute | app.py:59 | lower-casing then stripping equals stripping then lower-casing |
| PyStr.LowerIdempotent | app.py:59 | lower-casing twice is lower-casing once |
| PyStr.LowerPadded | app.py:59 | lower-casing a message with whitespace around it lower-cases only the message |
| PyStr.Contains | app.py:66-77 | `pat in s` is true exactly when `pat` occurs in `s` at some index (both directions) |
| PyStr.OccursInSlice | app.py:66-77 | an occurrence in a slice is an occurrence in the whole string inside the slice's bounds, and back |
| PyStr.ContainsIgnoresStrip | app.py:59-77 | a keyword with no whitespace at its ends occurs in the stripped text exactly when it occurs in the unstripped text |
| Chat.State.Valid | app.py:26 | the record invariant: the step is `None` or one of the four step names, and `data` holds only `"info"`, so it is empty or has exactly that key |
| Chat.Initial | app.py:26 | the record at start-up has step `None` and empty `data`, and is valid |
| Chat.ReplyTextInjective | app.py:63-98 | the nine reply values stand for the nine reply strings one to one: distinct replies have distinct texts |
| Chat.Normalize | app.py:59 | `message.lower().strip()`: the result has no whitespace at either end, no upper-case ASCII letter, and is never longer than the message |
| Chat.Turn | app.py:57-98 | only a detail step makes a collaborator call; the exception escapes exactly when the sheet append fails in `"normal_details"`; `data` is unchanged or only `"info"` is set to the raw message; a valid record stays valid |
| Chat.IdleTurn | app.py:61-63 | from `None` every message, even the empty one, moves to `"ask_service"` with the welcome reply, no call and `data` unchanged |
| Chat.ServiceAnswerTurn | app.py:65-71 | in `"ask_service"` the next step is `"ask_emergency"` exactly when "yes" occurs in the normalised message, and `None` otherwise; no call is made and `data` is unchanged |
| Chat.UrgencyAnswerTurn | app.py:73-81 | in `"ask_emergency"`, "emergency" wins over "normal"; with neither, the record is unchanged and the question is repeated; no call is made |
| Chat.EmergencyDetailsTurn | app.py:83-90 | in `"emergency_details"` the raw message becomes `"info"` and is mailed once under the fixed subject; the step returns to `None` with the registered reply whether or not the mail fails |
| Chat.NormalDetailsTurn | app.py:92-96 | in `"normal_details"` the raw message becomes `"info"` and is appended once as a one-cell row; the step returns to `None` only if the append succeeds, and otherwise the exception escapes |
| Chat.MailFailureSwallowed | app.py:85-88 | a failing mail send changes neither the record, the call made nor the reply |
| Chat.FallbackUnreachable | app.py:61-98 | with the step one of the five values, the "follow instructions" reply never occurs; with any other step it is given and nothing changes |
| Chat.DecisionsSeeOnlyNormalized | app.py:59-81 | two messages that normalise alike lead to the same next step, the same outcome and the same kind of call |
| Chat.NormalizeIgnoresCase | app.py:59 | two messages that differ only in the case of ASCII letters, such as "YES" and "yes", have the same normalised form |
| Chat.NormalizeIgnoresPaddingAndCase | app.py:59 | whitespace around a message, together with ASCII letter case, does not change its normalised form |
| Chat.NormalizeIdempotent | app.py:59 | normalising a normalised message changes nothing |
| Chat.KeywordTestsIgnoreStrip | app.py:59-77 | for "yes", "emergency" and "normal" the keyword test on the stripped text agrees with the test on the lower-cased text alone |
| Chat.Run | app.py:57-98 | successive calls with working collaborators: one outcome per message, at most one call per message, never an escaping exception, and a valid record stays valid |
| Chat.EmergencyConversation | app.py:57-90 | greeting, an answer with "yes", an answer with "emergency", then details: back at `None` with the details in `"info"`, exactly one mail carrying them, no row, and the four replies in order |
| Chat.AppointmentConversation | app.py:57-96 | greeting, "yes", an answer with "normal" but not "emergency", then details: back at `None` with exactly one one-cell row holding the details, no mail, and the four replies in order |
| Chat.DeclinedConversation | app.py:61-71 | greeting and an answer without "yes": back at `None` with no call and `data` unchanged |
| App.ChatBot.constructor | app.py:26 | the record starts as step `None` with empty `data` and no calls made |
| App.ChatBot.ProcessMessage | app.py:57-98 | updates `step` and `data` in place to exactly what `Turn` gives, returns its outcome, appends at most the one call it makes to the log, and keeps the record valid |

## Left out

- The Flask application, its routes and the JSON request and response handling (app.py:1-6, 103-112), including the `""` default for a missing message and the HTTP error a raised exception turns into. They are transport plumbing. A non-string `message` is excluded by typing.
- Loading the Google credentials and building the Sheets and Gmail clients (app.py:11-23). These are configuration and foreign library calls.
- What `send_gmail` does inside: MIME construction, base64 encoding and the Gmail API call (app.py:31-41). The model records only that one mail with a given subject and body was attempted. Whether the send raises is a parameter, and it changes nothing, because the exception is caught.
- What `save_to_sheet` does inside: the Sheets API append to `Sheet1!A:D` (app.py:46-52). The model records only that one row was attempted, and whether it raised.
- The `print` of a mail error (app.py:88). It is console output with no effect on the state or the reply.
- Concurrency. The single global record is shared by every request, and the model treats calls as strictly sequential.
- The server start-up (app.py:117-119).
- PyStr.LowerChar: lower-cases ASCII letters only. Python's `str.lower()` also maps non-ASCII letters, and a few of those change the string's length. The keywords tested are ASCII, but a non-ASCII capital that lower-cases to an ASCII letter (such as U+212A KELVIN SIGN to `k`) is not captured.
- PyStr.Lower: inherits the ASCII-only limit of `LowerChar`.
