# Activities client: roster rendering and mutation handling

A model of the browser client in `src/static/app.js` of the Mergington
activities site. The client shows every activity as a card, lists the
activities in a selector of the signup form, lets a student sign up by email,
and lets an organizer remove a participant with the control next to their
email. Every change is followed by a full re-fetch of the roster. There is no
incremental update.

The model has four modules:

- `Wrappers` holds `Option`.
- `Roster` holds the roster as the client receives it (`Entry`, `Details`,
  `FetchResult`) and the display built from it (`Card`, `Row`,
  `SelectOption`, `ListView`, `Display`). The pure function `Rendered` states
  what one `fetchActivities` pass leaves on the page. `BuildRows` is the loop
  over a card's participants.
- `Handlers` holds the settled outcome of a request (`Outcome`), the request
  (`Request`), the clicked element (`ClickTarget`), the guard of the click
  handler (`Tags`) and the fixed message texts.
- `Client` holds the class `App`, whose fields are the page state: the
  activities list, the selector's options and value, the form's email, the
  message box (text, class, hidden flag, pending hide timers), the `disabled`
  flag of each remove control, the log of requests sent, and the number of
  fetch passes. `FetchActivities` and `RenderEntries` run the
  clear-then-append loop. Each async handler is split at its `await` into the
  part that sends the request (`BeginSignup`, `BeginUnregister`) and the part
  that runs once the request settled (`SettleSignup`, `SettleUnregister`).
  `OnSignup` and `OnUnregisterClick` run both parts.

Network results are parameters: the handlers take an `Outcome` and the
`FetchResult` the follow-up refresh would deliver. Timers are a counter of
scheduled hides. `HideTimerFires` stands for one of them running.

Where the design documentation and the code differ, the model follows the code:

- Each 5000 ms timer adds `hidden` unconditionally, so the timer of an earlier
  message can hide a later one before the later one's own timer fires. The
  design asks that the newer message's timer govern visibility.
  `EarlierTimerHidesLaterMessage` shows the code's behaviour.
- When a request throws, no hide is scheduled, so the message stays visible
  until some other timer fires. The design describes one delayed hide after
  every message.
- `fetchActivities` never checks the response status. A `null` value under an
  activity name makes the render throw midway (`details.participants`). When
  that happens, the list shows the failure notice, but the selector keeps the
  options already appended. The design describes the failure notice only for
  a failed fetch.
- Assigning `className` replaces the whole class list. The message therefore
  becomes visible as soon as its class is set, before the refresh on the
  success path. Resetting the selector's options also resets its value to the
  placeholder's `""`.

## Model

| member | source | states |
|---|---|---|
| `Roster.SpotsLeft` | src/static/app.js:24-25 | spots left plus the participant count is the maximum, with no clamping: the number is negative exactly when over-enrolled; a non-array participants value counts as empty |
| `Roster.RowsForShape` | src/static/app.js:55-80 | an empty participants list gives exactly the "No participants yet" placeholder and no remove control; otherwise one row per participant in order, no placeholder, each control tagged with the activity name and that email |
| `Roster.BuildRows` | src/static/app.js:55-80 | the participants loop builds exactly the rows `RowsFor` specifies |
| `Roster.CompletePrefix` | src/static/app.js:20-24 | the render runs through exactly the entries before the first `null` value: all of those have values, and the entry it stops at is `null` |
| `Roster.RenderedComplete` | src/static/app.js:14-20 | from any prior display, a roster without `null` values yields one card per entry in entry order (card k is entry k's card, titled with its name) and options that are the placeholder followed by one option per entry with value and label equal to the name; the selector's value is reset |
| `Roster.RenderedStopsAtNull` | src/static/app.js:20-24 | a `null` value at entry n leaves the failure notice in the list, while the selector holds the placeholder and the options of entries 0..n-1 |
| `Roster.RenderedFetchFailed` | src/static/app.js:100-101 | a failed fetch replaces only the list, with the failure notice; the options and the selected value stay as they were |
| `Roster.RenderedInSync` | src/static/app.js:92-98 | after every pass, whenever cards are shown, the options are the placeholder plus one option per card naming that card, in card order |
| `Roster.RenderedIdempotent` | src/static/app.js:14-17 | rendering the same result twice leaves what rendering it once leaves; options never accumulate |
| `Roster.RenderedForgetsPrior` | src/static/app.js:14-17 | once the body parsed, the display after the pass does not depend on the display before it |
| `Roster.RenderedOptionsDistinct` | src/static/app.js:94-98 | with distinct activity names the activity options have distinct values, and all options do unless a name is the empty string |
| `Handlers.ErrorText` | src/static/app.js:129 | the server's detail when present and non-empty, else the fallback text |
| `Handlers.Tags` | src/static/app.js:149-159 | a click passes the guard exactly when it is inside a remove control whose activity and email tags are both present and non-empty, and it then targets those two values |
| `Handlers.RenderedControlTargetsItsParticipant` | src/static/app.js:69-73 | the control of row j of card k is tagged with activity k and its participant j, so a click on it targets exactly that pair unless one of them is empty |
| `Client.App.constructor` | src/static/app.js:197-198 | the startup pass renders the first fetch result over the initial page; the message is hidden, no request is sent, no control is disabled, one fetch has run |
| `Client.App.FetchActivities` | src/static/app.js:8-104 | the display afterwards is `Rendered` of the display before and the fetch result; cards and options stay in sync; one more fetch has run; nothing else changes |
| `Client.App.RenderEntries` | src/static/app.js:20-99 | on a cleared list and selector, the entries loop appends the cards and options of the entries before the first `null` value, and leaves the failure notice when it stops early |
| `Client.App.BeginSignup` | src/static/app.js:110-119 | a POST naming the selected activity and the entered email is sent, and it is the only change |
| `Client.App.SettleSignup` | src/static/app.js:121-144 | 2xx: the server message with class success, form reset, exactly one refresh whatever it delivers, one hide scheduled; non-2xx: the detail or "An error occurred" with class error, no refresh, no reset, one hide scheduled; thrown: "Failed to sign up. Please try again." with class error and no hide scheduled; the message is visible in every case |
| `Client.App.OnSignup` | src/static/app.js:107-145 | the whole submit handler: the request is sent with the form's values before the reset, then the outcome mapping of `SettleSignup` |
| `Client.App.BeginUnregister` | src/static/app.js:149-169 | an ignored click changes nothing and sends nothing; otherwise the control is disabled and then one DELETE for its activity and email is sent |
| `Client.App.SettleUnregister` | src/static/app.js:171-194 | the same outcome mapping as signup, with fallback "Failed to unregister participant" and thrown text "Failed to unregister participant. Please try again.", without a form reset; the control is enabled again on every outcome |
| `Client.App.OnUnregisterClick` | src/static/app.js:148-195 | an ignored click leaves every field unchanged; otherwise exactly one DELETE is sent and the control ends enabled, with the message, refresh and hide as in `SettleUnregister` |
| `Client.App.HideTimerFires` | src/static/app.js:136-138 | a scheduled timer adds `hidden` whatever message is shown, and one fewer hide stays pending |
| `Client.EarlierTimerHidesLaterMessage` | src/static/app.js:133-138 | after a successful signup and then a rejected one, the first timer hides the second message while the second's own timer is still pending |

## Left out

- DOM node construction, class names, the `aria-label`, the trash glyph, the "Schedule:" and "Availability:" labels, and the decimal text of the spots-left number. A card is a record and its availability is the integer.
- `fetch`, `response.json()` and HTTP are not modelled. Each request's result is an input. The roster fetch is either a failure or the parsed entries, because the code never examines the status.
- `encodeURIComponent` and the URL strings are not modelled. A `Request` records the verb and the raw activity and email.
- `setTimeout` timing is not modelled. A scheduled hide is a counter, and firing one is a method a caller may invoke while the counter is positive.
- Overlapping fetch passes and interleaved events are not modelled. Each settle step and each fetch pass runs as one step, and the startup fetch completes inside the constructor.
- `console.error` logging, `event.preventDefault()`, the browser's form validation, and the browser's refusal to deliver clicks to a disabled button are left out.
- JSON values of other shapes are left out. These are non-object values other than `null` under an activity name, a non-numeric `max_participants`, non-string participants, and a non-string `message` or `detail`. One example is a validation error whose detail is an array. The model takes strings and integers there.
- The page markup (`index.html`) is not part of this model. The constructor assumes the loading text in the list, the placeholder option in the selector, an empty hidden message, and an empty form.
- The Python server and its tests are not part of this model. Their message and detail strings appear only as example outcomes.
