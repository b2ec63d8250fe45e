# React chat widget and stopwatch — a Dafny model

The repository is a single-page React widget that forwards what the user
types to a chat-completion API and shows the reply in a message list, plus
a small stopwatch component. This project models the two pieces of logic
in it:

- **The chat session** (`ChatInterface`): an append-only history of
  `{role, content}` messages with role `user` or `assistant`, a text box,
  and a loading flag. The send handler is split into two pure steps:
  `Chat.Submit` (the synchronous part: trim the input, append the user
  message, clear the box, set loading, and the message list of the
  request) and `Chat.Settle` (what happens once the request has succeeded
  or failed). The provider's answer is an input value, `Ok(content)` or
  `Err`, so no I/O is modelled. The model assumes that each request
  settles before the next one is sent, so that the handler's captured
  `messages` equals the current history; the code does not enforce this
  (see `Chat.EnterIgnoresLoading`). The
  Send button's enable guard and the Enter-key path are modelled too; the
  Enter path runs the handler without looking at the loading flag
  (`Chat.EnterIgnoresLoading`). Whole conversations (`Chat.Converse`)
  keep two history invariants, and alternate user/assistant when every
  request succeeds.
- **The stopwatch** (`Timer`): `formatTime` as a string function over
  `nat` with its read-back `Stopwatch.ParseTime`, the start/pause and
  reset handlers, and the clock arithmetic of the effect and its interval
  tick over integer milliseconds, with the clock reading `now` as a
  parameter.

Supporting modules: `Text` models `String.prototype.trim` with the exact
list of ECMAScript white-space and line-terminator characters; `Decimal`
models `Number.prototype.toString()` for non-negative integers up to
2^53 (`Number.MAX_SAFE_INTEGER`), its
inverse, and `String.prototype.padStart`; `Options` holds `Option`.

The widget sends no system message and has no `system` role
(src/components/chatgpt.tsx:8, :49), and it appends the provider's text as
it is, with no fallback string (chatgpt.tsx:62-65); the model does the same.

## Model

| member | source | states |
|---|---|---|
| Text.TrimStart | src/components/chatgpt.tsx:24 | the result is a suffix of the input, starts with a non-space, and only white space was removed before it |
| Text.TrimEnd | src/components/chatgpt.tsx:24 | the result is a prefix of the input, ends with a non-space, and only white space was removed after it |
| Text.Trim | src/components/chatgpt.tsx:27 | `trim` yields a string that is empty or begins and ends with a non-space character |
| Text.TrimIsSlice | src/components/chatgpt.tsx:27 | `trim` keeps one contiguous slice of its input and every character removed on either side is white space |
| Text.IsBlank | src/components/chatgpt.tsx:24 | the early-return guard `!input.trim()` holds exactly when every character of the input is white space |
| Text.TrimEmptyIffAllSpace | src/components/chatgpt.tsx:24 | `trim` leaves the empty string exactly when every character is white space, both directions |
| Text.TrimIdempotent | src/components/chatgpt.tsx:27 | trimming the already-trimmed user text changes nothing |
| Decimal.ToDecimal | src/components/timer.tsx:45-46 | `toString` of a non-negative integer (up to 2^53) is a non-empty digit string with no leading zero except for zero |
| Decimal.ParseToDecimal | src/components/timer.tsx:45-46 | reading the rendered digits back gives the number: the rendering loses nothing |
| Decimal.DecimalLength | src/components/timer.tsx:45-47 | one digit below 10, two below 100, at least three from 100 on |
| Decimal.PadStart | src/components/timer.tsx:45-47 | `padStart(2, "0")` puts fill characters in front until the width is reached and never truncates a longer string |
| Decimal.ParsePadded | src/components/timer.tsx:45-47 | zero-padding a rendered number does not change the number read back |
| Stopwatch.Field | src/components/timer.tsx:45-47 | a padded field is all digits, at least two long, and exactly two long below 100 |
| Stopwatch.FormatTime | src/components/timer.tsx:42-48 | the display is at least five characters with the colon third from the end |
| Stopwatch.ParseTime | src/components/timer.tsx:42-48 | a display is read back only when it has the colon third from the end |
| Stopwatch.FormatTimeFields | src/components/timer.tsx:43-47 | the seconds field is two digits whose tens digit is 0..5, and the minutes part is all digits |
| Stopwatch.ParseFormatTime | src/components/timer.tsx:42-47 | reading the display back as minutes * 60 plus a seconds field below 60 recovers the input |
| Stopwatch.FormatTimeInjective | src/components/timer.tsx:42-47 | different second counts never give the same display |
| Stopwatch.FormatTimeShort | src/components/timer.tsx:45-47 | below 6000 seconds the display is exactly five characters with ':' at index 2 |
| Stopwatch.FormatTimeLong | src/components/timer.tsx:45-47 | from 6000 seconds on the display is longer than five characters and the minutes appear in full |
| Stopwatch.StartStop | src/components/timer.tsx:31-33 | start/pause flips the running flag and leaves seconds and start time alone |
| Stopwatch.StartStopTwice | src/components/timer.tsx:31-33 | pressing start/pause twice returns to the same state |
| Stopwatch.Reset | src/components/timer.tsx:35-39 | reset stops the watch, zeroes the seconds and clears the start time |
| Stopwatch.ResetIdempotent | src/components/timer.tsx:35-39 | reset reaches the mount state from any state, and a second reset changes nothing |
| Stopwatch.Elapsed | src/components/timer.tsx:18 | whole seconds since the start: the largest count whose milliseconds do not exceed the difference |
| Stopwatch.Effect | src/components/timer.tsx:14-16 | while running, the effect records the start as `now - seconds * 1000`, from which the elapsed whole seconds equal the seconds shown; while paused it changes nothing |
| Stopwatch.Tick | src/components/timer.tsx:17-19 | a tick sets the seconds to the whole seconds since the recorded start and keeps the watch running |
| Stopwatch.ResumeStart | src/components/timer.tsx:16-18 | the recorded start is not after `now`, and at that instant the elapsed whole seconds equal the seconds already shown, so resuming does not jump |
| Stopwatch.TickAfterResume | src/components/timer.tsx:14-19 | a later tick shows the seconds from before the pause plus the whole seconds run since resuming |
| Stopwatch.TickMonotone | src/components/timer.tsx:18 | a later tick never shows fewer seconds than an earlier one |
| Chat.Edit | src/components/chatgpt.tsx:116 | typing replaces the text box and leaves history and loading alone |
| Chat.Submit | src/components/chatgpt.tsx:22-33 | blank input changes nothing and sends nothing; otherwise exactly one user message with the trimmed text is appended, the box is cleared, loading is set, and a request is issued |
| Chat.SubmitThenSettle | src/components/chatgpt.tsx:27-73 | the request carries the prior history plus the user message; on success the reply follows the user message and ends the history; on failure the user message stays last; loading ends cleared |
| Chat.Settle | src/components/chatgpt.tsx:55-73 | a reply is appended as one assistant message, a failure appends nothing, and loading is false either way |
| Chat.CanSend | src/components/chatgpt.tsx:130 | the button is enabled exactly when nothing is loading and the box holds some non-white-space character |
| Chat.PressSend | src/components/chatgpt.tsx:128-131 | an enabled Send button runs the send handler; a disabled one does nothing |
| Chat.CanSendIffSubmits | src/components/chatgpt.tsx:130 | the button is enabled exactly when nothing is loading and the handler would issue a request |
| Chat.KeyDown | src/components/chatgpt.tsx:118-122 | Enter without Shift runs the send handler whatever the loading flag; any other key does nothing to the session |
| Chat.SendPathsAgreeWhenIdle | src/components/chatgpt.tsx:118-131 | while idle, the button and the Enter key do the same; while loading the button sends nothing |
| Chat.EnterIgnoresLoading | src/components/chatgpt.tsx:118-122 | with a request in flight and text typed, Enter still issues a second request although the button is disabled |
| Chat.Exchange | src/components/chatgpt.tsx:22-75 | typing and sending: blank text only changes the box; otherwise the box is cleared, loading ends cleared, and the history gains the trimmed user message, followed by the reply on success |
| Chat.HelloExample | src/components/chatgpt.tsx:22-73 | sending "Hello" answered "Hi there" from mount gives exactly those two messages, an empty box and no loading |
| Chat.BlankExample | src/components/chatgpt.tsx:24 | sending three spaces from mount appends nothing and issues no request |
| Chat.ExchangeKeepsInvariants | src/components/chatgpt.tsx:27-67 | one exchange keeps every reply directly after a user message and every user text trimmed and non-empty, whatever the outcome |
| Chat.ConverseKeepsInvariants | src/components/chatgpt.tsx:22-75 | any sequence of exchanges keeps both history invariants |
| Chat.ConverseAlternates | src/components/chatgpt.tsx:29-67 | when every request succeeds, the roles keep alternating user, assistant, user, assistant |
| Chat.ExchangeAppends | src/components/chatgpt.tsx:24-73 | one exchange keeps the history as a prefix and adds nothing for blank text, one message for a failed request, two for a successful one |
| Chat.ConverseAppends | src/components/chatgpt.tsx:29-73 | the history only grows at its end, by one message per failed turn and two per successful one, and loading ends cleared |

## Left out

- The HTTP request itself (endpoint, headers, API key from the build environment, model name `gpt-4`, JSON encoding and decoding of `data.choices[0].message.content`): network I/O; its result is the `Outcome` input.
- A successful response whose `choices[0].message` exists but has a missing or null `content` appends a message with undefined or null content in the source; the model's `Ok` always carries a string. A body with no `choices`, an empty `choices`, no `message`, or a null body makes the content read throw, and the catch turns that into the model's `Err`.
- The `console.error` diagnostic on failure: I/O with no effect on state.
- Rendering: JSX, CSS classes, the loading dots, list keys and icons.
- React scheduling: state batching, the stale closure over `messages`, and overlapping requests; steps are taken one at a time and the closure's history equals the current one.
- `setInterval`, `clearInterval` and `Date.now()`: the clock is the parameter `now`, and the effect's re-run on `startTime` changes is not modelled.
- Stopwatch.Tick: requires the recorded start time to be set and not after `now`; the source's first tick can read a null start time, and a clock running backwards would give negative seconds, neither of which is modelled.
- Stopwatch.FormatTime: defined for non-negative seconds only; negative inputs never arise with a monotone clock.
- Decimal.ToDecimal: exact only up to 2^53 (`Number.MAX_SAFE_INTEGER`); above that `toString` prints the shortest digits that read back as the same double, padded with zeros, and from 10^21 it uses exponent notation.
- All the stopwatch's numbers (`seconds`, `startTime`, `now`, `seconds * 1000`, `now - startTime`, `totalSeconds / 60`) are modelled as unbounded integers where the source uses doubles; doubles hold these integers exactly up to 2^53, far beyond any value a running stopwatch reaches.
- Text.Trim: works on Unicode scalar values, where JavaScript strings are UTF-16; all white-space characters lie in the Basic Multilingual Plane, so this does not change the result.
- src/App.tsx and src/vite-env.d.ts: wiring and type declarations only.
