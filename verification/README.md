# Countdown page model

A Dafny model of the countdown logic in `app.js`. The page counts down to a
target moment kept in the browser's key-value store. It shows the remaining
days, hours, minutes and seconds, the target as `y-MM-DD hh:mm`, and a status
message. A save button and a reset button change the target, and a one-second
interval re-renders the page.

The model is purely functional. A `Page` record holds the store slot
(`Option<string>`, where `None` means the key was never written), the text of
the four duration fields, the target text, the input box, the status message
(one constructor per kind of message) and the timer state. Each operation
returns the next `Page`. The clock reading `now` and the browser's date parser
are parameters. The parser is a `string -> Option<Moment>` whose `Moment`
carries a millisecond value and its local-time calendar components.

Modules:

- `Decimal`: `String(n)` for integers, and a reader that is its inverse.
- `Format`: `padStart`, `pad2` and `formatLocal`, and a reader for the
  display string.
- `Duration`: the day/hour/minute/second decomposition of `updateUI`.
- `TargetStore`: the stored target with its default fallback.
- `Scheduler`: interval handles, `clearInterval`, `setInterval`, and the
  restart done by `start`.
- `Countdown`: the page operations `updateUI`, `tick`, `start`, the two click
  handlers and page load. It also defines a trace of user and timer events.

## Model

| member | source | states |
|---|---|---|
| `TargetStore.GetSaved` | app.js:35-37 | the stored string is returned when present and non-empty; a missing key or `""` gives the default `"2026-06-26T14:00"`; the result is never empty |
| `TargetStore.SetSaved` | app.js:39-41 | writing stores exactly the given string |
| `TargetStore.ReadAfterWrite` | app.js:35-41 | a read after a write returns the written string, except that `""` reads back as the default |
| `TargetStore.WriteForgetsPrevious` | app.js:39-41 | what a read returns after a write does not depend on the earlier contents |
| `Decimal.NatToString` | app.js:67-70 | `String(n)` for `n >= 0` is a non-empty digit string with no leading zero, and it is `"0"` exactly when `n` is 0 |
| `Decimal.IntToString` | app.js:22 | `String(n)` of a negative number is a minus sign before the magnitude |
| `Decimal.NatRoundTrip` | app.js:67-70 | reading back the decimal text of a non-negative number gives the number |
| `Decimal.IntRoundTrip` | app.js:22 | reading back the signed decimal text of any integer gives the integer |
| `Decimal.CanonicalRoundTrip` | app.js:67-70 | every digit string without a leading zero is the `String` of the number it denotes |
| `Decimal.NatToStringInjective` | app.js:67-70 | different non-negative numbers render differently |
| `Format.PadStart` | app.js:22 | `padStart` keeps a string that is already long enough; otherwise it pads on the left with the pad character up to the width, and the original string is the suffix |
| `Format.Pad2` | app.js:21-23 | `pad2(n)` is at least 2 long, ends with `String(n)` and is preceded only by zeros |
| `Format.Pad2Shape` | app.js:21-23 | for `0 <= n < 10` the result is `"0"` then the digit; for `n >= 10` it is the plain decimal; for `n < 0` it is the signed decimal |
| `Format.Pad2RoundTrip` | app.js:21-23 | for `0 <= n < 100` the result is exactly two digits, and they read back to `n` |
| `Format.FieldsRoundTrip` | app.js:28-32 | for in-range components, the text after the year is 12 characters `-MM-DD hh:mm`, and it reads back to month, day, hour and minute |
| `Format.FormatLocalRoundTrip` | app.js:25-33 | for in-range components, `formatLocal` is the year's decimal followed by 12 characters, and reading it back gives the calendar reading with the zero-based month restored |
| `Format.FormatLocalInjective` | app.js:25-33 | two in-range calendar readings with the same display string are equal |
| `Duration.TotalSeconds` | app.js:61 | `Math.floor(diffMs / 1000)` for a positive difference: the largest whole number of seconds not above the difference |
| `Duration.Decompose` | app.js:61-65 | hours are below 24, minutes and seconds below 60, days non-negative, and `days*86400 + hours*3600 + minutes*60 + seconds` equals the whole seconds of the difference |
| `Duration.DecomposeUnique` | app.js:61-65 | any in-range fields that reconstruct the whole seconds are the ones displayed |
| `Duration.DecomposeCompose` | app.js:61-65 | composing in-range fields into milliseconds, with any sub-second remainder, and decomposing again gives the same fields |
| `Duration.DecomposeExample` | app.js:61-65 | 93784000 ms is 1 day, 2 hours, 3 minutes and 4 seconds |
| `Duration.DecomposeUnderASecond` | app.js:61-65 | less than a whole second decomposes to zero days, hours, minutes and seconds |
| `Countdown.UpdateUI` | app.js:51-73 | a difference `<= 0` sets all four fields to `"0"` and the completion message; a positive difference clears the message and shows canonical decimal fields that read back to its decomposition; under a second every field is `"0"`; nothing else changes |
| `Countdown.UpdateUIReadsBack` | app.js:61-72 | for a positive difference the displayed numbers are in range and reconstruct the whole seconds remaining |
| `Countdown.Tick` | app.js:75-89 | the store, the input and the timers are untouched. If the stored target does not parse, only the message changes, to the bad-target message. Otherwise the target text is its `formatLocal` rendering, the completion message appears exactly when the target is not after `now`, and before it the fields read back to the decomposition of the difference |
| `Countdown.TickUnparsableOnlyMessage` | app.js:79-82 | an unparsable stored target sets the bad-target message and leaves every other part of the page as it was |
| `Countdown.TickOverwritesMessage` | app.js:75-89 | every tick rewrites the status message to blank, completion or bad-target |
| `Countdown.TickForgetsMessage` | app.js:75-89 | the message shown before a tick has no effect on the page after it |
| `Countdown.TickShowsUsableTarget` | app.js:79-88 | a tick over a stored target that parses keeps the store and never shows the bad-target message |
| `Countdown.TickAfterDeadline` | app.js:52-58 | at or after the target every field is `"0"` with the completion message, and the page is the same for every such `now` |
| `Countdown.TickBeforeDeadline` | app.js:84-88 | before the target the displayed fields reconstruct the whole seconds between `now` and the target |
| `Countdown.LastSecondShowsZeros` | app.js:61-72 | when less than a second remains the fields show zeros but the message is blank, not the completion message |
| `Countdown.TickIdempotent` | app.js:75-89 | two ticks at the same instant give the same page as one |
| `Countdown.TickForgetsDisplay` | app.js:84-88 | with a parsable target, a tick's result does not depend on what the fields or the message showed before |
| `Scheduler.ClearInterval` | app.js:92 | `clearInterval(h)` stops exactly interval `h` |
| `Scheduler.SetInterval` | app.js:94 | `setInterval` starts one fresh interval, whose handle comes from the counter |
| `Scheduler.Restart` | app.js:91-95 | the remembered interval is stopped if its handle is truthy, a new one is started, and its handle is remembered |
| `Scheduler.RestartSingle` | app.js:92-94 | from a consistent timer state, exactly the new interval runs afterwards and the earlier one has stopped |
| `Scheduler.RestartTwiceSingle` | app.js:91-95 | two restarts in succession still leave a single interval, the second one |
| `Scheduler.ZeroHandleLeaks` | app.js:92 | the truthiness test would leave an interval with handle 0 running, so the one-timer guarantee depends on handles being positive |
| `Countdown.Start` | app.js:91-95 | the new handle is remembered; from a consistent timer state exactly one interval runs afterwards, and it is not the earlier one |
| `Countdown.StartTicksOnce` | app.js:93 | apart from the timers, `start` leaves the page exactly as one tick does |
| `Countdown.StartTwiceSingleTimer` | app.js:91-95 | two `start` calls in a row leave exactly one interval running |
| `Countdown.Fire` | app.js:94 | a firing of an interval that is not running changes nothing; a firing of the running interval is exactly one tick; a firing never changes the store, the input or the timers |
| `Countdown.SaveClick` | app.js:101-111 | an unparsable input only sets the invalid-input message; a parsable input is stored exactly, the timers are restarted, and the page is exactly what one tick of the stored target draws |
| `Countdown.SaveClickLosesMessage` | app.js:108-110 | after a successful save the page never shows the success message |
| `Countdown.SaveClickFixed` | app.js:101-111 | as `SaveClick`, and after a successful save the page shows the success message; it differs from `SaveClick` in nothing else |
| `Countdown.SaveRejectsInvalid` | app.js:104-107 | a rejected input leaves the store, what reads return and the timers unchanged, and shows the invalid-input message |
| `Countdown.SaveThenRead` | app.js:108-110 | after saving a parsable non-empty input, reads return that input, the target text is its rendering, and exactly one interval runs |
| `Countdown.ResetClick` | app.js:113-118 | the store and the input box hold the default, reads return the default, the timers are restarted, and the page is exactly what one tick of the default target draws |
| `Countdown.ResetClickLosesMessage` | app.js:116-117 | after a reset the page never shows the reset message |
| `Countdown.ResetClickFixed` | app.js:113-118 | as `ResetClick`, and the page shows the reset message; it differs from `ResetClick` in nothing else |
| `Countdown.ResetForgetsPrevious` | app.js:113-118 | the store and the input after a reset do not depend on the earlier page; with a parsable default and the same timers, nothing about the result does |
| `Countdown.Load` | app.js:97-122 | on load the input box holds what a read returns, from a consistent timer state exactly one interval runs, and the page is exactly one tick of the stored target under the restarted timers |
| `Countdown.RunSingleTimer` | app.js:91-95 | over any sequence of edits, clicks and timer firings, at most one interval runs, and exactly one once an interval has been started |
| `Countdown.RunKeepsTargetUsable` | app.js:101-118 | if the default parses, a stored target that parses keeps parsing over any sequence of events, and the bad-target message does not come back |
| `Countdown.StepKeepsTargetUsable` | app.js:101-118 | the same for a single event |
| `Countdown.SaveKeepsTargetUsable` | app.js:101-111 | if the default parses, a save never leaves a stored target that fails to parse, and never brings the bad-target message back |
| `Countdown.ResetKeepsTargetUsable` | app.js:113-118 | if the default parses, after a reset the stored target parses and the bad-target message is not shown |
| `Countdown.FireKeepsTargetUsable` | app.js:94 | a timer firing keeps the store, and with a stored target that parses never brings the bad-target message back |
| `Countdown.LoadedPageHealthy` | app.js:119-122 | after page load with parsable targets, any sequence of events leaves exactly one interval running and never shows the bad-target message |

## Left out

- The particle animation. It is not in `app.js`, and its canvas drawing uses randomness and floating point.
- Element lookup and `textContent` writes (app.js:5-17). The page slots are fields of `Page`.
- Real `localStorage` I/O. The slot is an `Option<string>`.
- Date parsing. `new Date(iso)`, its time-zone interpretation and the local-time getters are foreign calls. They are the `Parser` parameter. The model neither writes nor assumes a concrete date grammar, and it does not assume that the default target parses. Lemmas that need that state it as a requirement.
- The wall clock. `new Date()` in `tick` is the `now` parameter, in milliseconds.
- Interval timing. The 1000 ms period and when firings happen are not modelled. A firing is an event `Timer(handle, now)` that the trace may contain at any point.
- Exact message texts. Each message is a constructor of `Message`.
- Stopping the countdown. `app.js` has no stop operation, so none is modelled.
- The unused `targetDate` argument of `updateUI` is dropped.
- A stored value that does not parse is not replaced by the default: `tick` shows the bad-target message and leaves the fields alone (app.js:79-82); the default is used only for a missing key or `""` (app.js:36).
- Machine integers. The model uses unbounded `int` and a digit-only `String(n)`. Both are exact for the page: JavaScript `Date` values stay within ±8.64e15 ms, which is below 2^53, and `String` switches to exponent form only from 1e21. Years stay at or below 275760.
- Countdown.SaveThenRead requires a non-empty input. An empty string that the parser accepted would be stored but read back as the default, because of the same `||`. A browser does not parse `""` as a date.

## Findings

| source | as written | input that shows it | evidently intended | confidence | as-written member | corrected member |
|---|---|---|---|---|---|---|
| app.js:108-110 | the save handler sets the success message and then calls `start()`. Its synchronous `tick()` always rewrites the message (blank, completion or bad-target) before the page is drawn | any input the parser accepts, for example the default target | the page shows the success message after a save | medium, not executed | `Countdown.SaveClickLosesMessage` | `Countdown.SaveClickFixed` |
| app.js:116-117 | the reset handler sets the reset message and then calls `start()`, which overwrites it in the same way | any page state | the page shows the reset message after a reset | medium, not executed | `Countdown.ResetClickLosesMessage` | `Countdown.ResetClickFixed` |

The event trace (`Countdown.Step` and `Countdown.Run`) uses the click handlers
as written. The corrected handlers differ from them only in showing the
success or reset message in place of what `tick` wrote. None of the trace
properties depends on that, so they hold for the corrected handlers as well.
