# Activity board: escaping, rendering and feedback

A model of the front-end script of a club signup page (`src/static/app.js`).
The page loads a directory of activities from a service and draws one card per
activity, plus one option per activity in a select. Users sign up through a
form and remove a participant with a delete control on the card. After each
request the page shows one feedback message.

The model has five modules:

- `Wrappers` (wrappers.dfy): the `Option` type, for absent JSON fields and
  steps that may throw.
- `Escape` (escape.dfy): `escapeHtml` in two forms. `EscapeHtml` is the chain
  of five global replacements, `&` first, written as a table of
  (character, reference) steps applied in order. `EscapeCharwise` is a one-pass
  character map, proved equal to the chain. A decoder `Unescape` turns the five
  character references back into characters. The properties are stated on
  `EscapeHtml`: no raw `<`, `>`, `"` or `'` in the output; every `&` starts a
  reference; the round trip in both directions; the exact length; and identity
  exactly on strings that hold none of the five characters.
- `Board` (board.dfy): the directory is a sequence of (name, record) pairs in
  the order the service sent them. `Render` maps it to an abstract page: a
  list area (cards, or the failure notice) and the select's options. Each card
  holds the escaped name, description and schedule, the spots-left number, and
  either a participant list or the "No participants yet" notice. Each list
  line carries a delete control bound to the activity and the participant.
- `Requests` (requests.dfy): the request paths for signup and unregister,
  with a parser that reads them back, and the list's click handler.
- `Feedback` (feedback.dfy): the decision a handler takes once its request
  has finished. It gives the message text and class, whether the form is
  reset, whether the list is reloaded, and the delay of the hide timer.

Four behaviours of `app.js` that the model follows exactly:

- An absent or null `participants` field throws at line 33, where
  `participants.length` is read, before the array check at line 36; the
  refresh then ends in its catch branch. A non-array value that has a
  `length`, such as a string, counts that length in the spots left while the
  card lists no participants.
- A throw inside the walk over the directory happens after the select was
  reset at line 26, so the select keeps the placeholder plus the options
  added before the throw. Only a failed fetch or JSON parse leaves the select
  as it was.
- An unregister reloads the list after any reply, ok or not (line 173), and
  not when the request throws.
- A request that throws shows "Failed to sign up. Please try again." or
  "Failed to unregister. Please try again."; the signup catch branch sets the
  class `error`, not `message error`.

Two conventions follow the page's runtime:

- Setting `textContent` to an absent `message` field shows empty text.
- `detail || fallback` treats an empty `detail` string as absent.

## Model

| member | source | states |
|---|---|---|
| Escape.EscapeHtml | src/static/app.js:8-15 | no contract of its own: it is the chain of five global replacements, `&` first; its properties are stated by `EscapeHtmlIsCharwise`, `UnescapeEscapeHtml`, `EscapeHtmlUnescape`, `EscapeHtmlIsEscaped`, `EscapeHtmlLength` and `EscapeHtmlIdentityIffSafe` |
| Escape.EscapeChar | src/static/app.js:10-14 | each of `& < > " '` becomes a reference starting with `&`, any other character is copied unchanged, and no replacement holds `<`, `>`, `"`, `'` or a second `&` |
| Escape.EscapeCharwise | src/static/app.js:9-14 | the one-pass reference escaper: output at least as long as the input and free of `<`, `>`, `"`, `'` |
| Escape.EscapeHtmlIsCharwise | src/static/app.js:9-14 | the chain of five global replacements, `&` first, equals the one-pass character map |
| Escape.EscapeHtmlConcat | src/static/app.js:9-14 | escaping distributes over concatenation |
| Escape.AmpersandFirstAvoidsDoubleEscaping | src/static/app.js:10 | with `&` replaced first, `<` escapes to `&lt;`; with `&` replaced last it would become `&amp;lt;` |
| Escape.UnescapeEscapeHtml | src/static/app.js:10-14 | decoding the five references gives back exactly the escaper's input |
| Escape.EscapeHtmlInjective | src/static/app.js:9-14 | different inputs escape to different outputs |
| Escape.EscapeHtmlNoRawMarkup | src/static/app.js:11-14 | the output never holds `<`, `>`, `"` or `'` |
| Escape.EscapeHtmlAmpersandsStartReferences | src/static/app.js:10-14 | every `&` in the output begins one of `&amp;`, `&lt;`, `&gt;`, `&quot;`, `&#039;` |
| Escape.EscapeHtmlIsEscaped | src/static/app.js:9-14 | the output is in escaped form: no raw markup, and every `&` starts a reference |
| Escape.EscapeHtmlUnescape | src/static/app.js:9-14 | every escaped-form string is the escaping of its decoding, so the escaper maps all strings one-to-one onto the escaped-form strings |
| Escape.EscapeHtmlLength | src/static/app.js:10-14 | output length is the input length plus 4 per `&`, 3 per `<` or `>`, and 5 per `"` or `'` |
| Escape.EscapeHtmlIdentityIffSafe | src/static/app.js:9-14 | the escaper leaves a string unchanged if and only if it holds none of `& < > " '` |
| Board.SpotsLeft | src/static/app.js:33 | no contract of its own: `max_participants` minus the raw field's length, None when reading it throws; stated by `SpotsLeftFromRawField` and `SpotsLeftMayBeNegative` |
| Board.Guarded | src/static/app.js:36 | no contract of its own: an array field gives its elements, anything else no participants; stated by `SpotsLeftFromRawField` and `ParticipantsBlockOfCard` |
| Board.RenderCard | src/static/app.js:30-86 | a card is produced exactly when reading the participants' length does not throw; its content is stated by `CardTextIsLiteral`, `SpotsLeftFromRawField` and `ParticipantsBlockOfCard` |
| Board.Walk | src/static/app.js:29-95 | no contract of its own: the `forEach` over the entries, card then option, stopping at the first throw; stated by `WalkInOrder` |
| Board.Items | src/static/app.js:58-76 | one line per participant, in order; line i shows participant i and its delete control carries (activity name, participant i) |
| Board.ParticipantsBlockFor | src/static/app.js:54-84 | the notice "No participants yet" exactly when there are no participants, otherwise a list of exactly N lines bound to the activity |
| Board.WalkInOrder | src/static/app.js:29-95 | the walk adds one card and one option per entry in directory order, throws iff some entry throws, and then stops at the first such entry |
| Board.Render | src/static/app.js:24-95 | the select is the empty-value placeholder followed by activity names in order; the list holds exactly one card per entry, in order, iff no entry's participants field is absent, and the select then has 1 + n options |
| Board.RenderStopsAtFirstThrow | src/static/app.js:33 | when an entry's participants field is absent the list shows the failure notice and the select keeps the placeholder plus exactly the names before the first such entry |
| Board.Refresh | src/static/app.js:18-99 | the list shows the failure notice exactly when the fetch or JSON parse failed or some entry's participants field is absent; a failed fetch leaves the select as it was, any fetched directory resets it to start with the placeholder; a drawn list has one card per entry and the select 1 + n options |
| Board.CardTextIsLiteral | src/static/app.js:38-43 | a card's name, description and schedule are in escaped form and decode back to the service's text |
| Board.SpotsLeftFromRawField | src/static/app.js:33-42 | spots left is `max_participants` minus the raw field's length, unclamped; a non-array field counts its own length but lists no participants; no numeric length gives NaN |
| Board.SpotsLeftMayBeNegative | src/static/app.js:33 | an activity over capacity shows a negative spots-left number |
| Board.ParticipantsBlockOfCard | src/static/app.js:54-84 | a card's block is the placeholder iff its participant array is empty, else N lines in order, each bound to the card's activity and that participant |
| Board.DeleteControlUnregisters | src/static/app.js:69-70 | clicking line i's delete control on card k sends the unregister request for activity k and participant i |
| Board.RefreshForgetsPrevious | src/static/app.js:24-26 | a successful refresh does not depend on the previous select, so repeating it on the same directory shows the same page |
| Board.SelectValuesDistinct | src/static/app.js:90-94 | with distinct activity names, the options after the placeholder have distinct values |
| Requests.RequestFor | src/static/app.js:110-115 | a signup is a POST and an unregister a DELETE, both under `/activities/` |
| Requests.ParseRequestFor | src/static/app.js:155-158 | if the encoded name holds no `/`, the path gives back the action, the encoded activity name and the encoded email |
| Requests.RequestForInjective | src/static/app.js:110-115 | with a one-to-one encoder that writes no `/`, different (action, activity, email) triples give different requests |
| Requests.UnregisterChessClubExample | src/static/app.js:155-158 | with an encoder that writes space as `%20` and `@` as `%40`, removing "a@x.com" from "Chess Club" deletes `/activities/Chess%20Club/participants?email=a%40x.com` |
| Requests.OnListClick | src/static/app.js:147-158 | a click on a delete control sends the unregister request for the pair it carries; any other click sends nothing |
| Feedback.ShownMessage | src/static/app.js:121 | the server's `message` when present, empty text when the field is absent (the unregister handler does the same at line 163) |
| Feedback.SignupOutcome | src/static/app.js:120-143 | no contract of its own: the signup handler's three branches; stated column by column by `Decide` with action `Signup` |
| Feedback.UnregisterOutcome | src/static/app.js:162-183 | no contract of its own: the unregister handler's three branches; stated column by column by `Decide` with action `Unregister` |
| Feedback.DetailOr | src/static/app.js:128 | the detail when it is a non-empty string, otherwise the fallback; never empty when the fallback is not empty |
| Feedback.Decide | src/static/app.js:103-184 | refresh on any unregister reply but only an ok signup reply; reset only on an ok signup; a 5000 or 4000 ms timer on every reply and none on a throw; class `message success` iff ok, `error` only in the signup catch; server message, detail or fallback text as per action |
| Feedback.HandlersCompared | src/static/app.js:120-183 | the two handlers agree on class for replies but not in the catch branch; only unregister reloads after a failed reply; unregister never resets the form |
| Feedback.SignupSucceeded | src/static/app.js:120-137 | an ok signup with message "Signed up!" shows it as `message success`, resets the form, reloads and hides after 5000 ms |
| Feedback.SignupRejected | src/static/app.js:127-137 | a rejected signup with detail "Already registered" shows it as `message error`, keeps the form, does not reload, hides after 5000 ms |

## Left out

- DOM construction (`createElement`, `innerHTML`, `textContent`, `dataset`, `classList`, event listeners) is modelled by abstract view values (`Card`, `Item`, `Choice`, `Page`), not by a browser model. The card's fixed "Participants" title and the button's `&times;` label are not represented.
- `fetch` and `response.json()` are not modelled. Their results are inputs: the directory or `None` for `Refresh`, and `Threw` or `Replied` for `Decide`.
- `setTimeout`: only the delay is modelled. Hiding the message, overlapping requests and last-writer-wins races on the message and the list are concurrency, not sequential logic.
- `encodeURIComponent` is a browser built-in; it is an opaque function parameter and only the path's shape around it is stated.
- The ordering of `Object.entries` (integer-like keys first) is not modelled; the directory arrives as an ordered sequence.
- `String(str)` on non-string values (`undefined` becomes "undefined") is not modelled: names, descriptions, schedules and participants are strings.
- A non-numeric `max_participants`, a directory body that is not an object, a `details` value that is null, and a reply body that is `null` are not modelled. Each would be a JavaScript coercion or a throw outside the cases above.
- JavaScript numbers are doubles, while `max_participants` and spots left are unbounded integers here. A fractional `max_participants` such as 2.5 (the page would show "0.5 spots left") cannot be represented, and integers above 2^53 that lose precision when the JSON is parsed are not modelled.
- Strings are sequences of Unicode scalar values, not UTF-16 code units: lone surrogates cannot be represented, and the lengths in `EscapeHtmlLength` count characters, not JavaScript `.length`.
- `Reply.message` and `Reply.detail` hold only string values; a non-string JSON value, such as the array `detail` of a FastAPI 422 reply that the page shows as "[object Object]", is not modelled.
- The `length` of a non-array participants value is abstracted to an integer or NaN; JavaScript's number coercion of that value is not modelled.
- `console.error` logging is not modelled.
- The backend's duplicate-signup (400) and unknown-activity (404) rules belong to a server file that is not part of this model.
