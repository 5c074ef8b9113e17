# ResponsiveTimer engine, modelled in Dafny

The `ResponsiveTimer` component shows either a countdown or the current time
and refreshes it once per animation frame. This project models its engine:

- `defaultFormatTime`, the pure formatter that turns a millisecond count into
  `MM:SS.cc`, or into `HH:MM:SS.cc` once there is at least one hour
  (`time_format.dfy`, module `TimeFormat`). A reader for that format and the
  round-trip proof are in `format_round_trip.dfy` (module `FormatRoundTrip`).
- The frame callback `updateDisplay` with the layout effect that starts it and
  the cleanup that cancels it (`responsive_timer.dfy`, module
  `ResponsiveTimer`). The refs become fields of the class `Timer`:
  - `startTimeRef` becomes `anchor`;
  - `animationFrameRef` becomes `frameRef`;
  - `isCountdownRef` becomes the constant `isCountdown`;
  - the display's `textContent` becomes `text`.

  The frame scheduler is the field `pending`, the callback's live
  registration, so a timer has at most one registration by construction.
  `Tick(now, wall, hasDisplay, next)` is one frame. Its inputs are:
  - the `performance.now()` reading;
  - the `Date.now()` reading;
  - whether the display element is attached;
  - the handle `requestAnimationFrame` returns for the next frame.

  Ghost fields record what an observer sees: `events` logs every display
  write and every `onComplete` call, and `remainings` logs every countdown
  value computed. `Valid()` states the invariants the methods keep:
  - the live registration is the one the ref names;
  - `onComplete` fires at most once per run, and a finished run has nothing
    scheduled;
  - the first countdown value is the whole duration;
  - the countdown values never increase;
  - a finished run's last value is 0.
- `timer_scenarios.dfy` (module `TimerScenarios`) drives whole runs with a
  hand-stepped clock and scheduler.

The code behaves as follows in a few cases a reader may not expect:

- A `durationMs` of 0 is falsy, so the timer runs in clock mode. It does not
  complete on the first tick (`ZeroDurationRunsAsClock`).
- A start instant of 0 counts as unset, so the next frame anchors again. A
  one-second countdown ticked at 0, 400, 900 and 1000 ms shows 1000, 1000,
  500 and 400 ms remaining, not 1000, 600, 100 and 0 (`CountdownFromClockZero`).
  From a non-zero first reading it shows 1000, 600, 100 and 0
  (`OneSecondCountdown`).
- Nothing marks a finished run and nothing guards a second start. The ghost
  `finished` marks the end of a run.
- The start instant is never reset (index.ts:57, 67). If the effect runs
  again after a countdown has completed, the next frame still measures from
  the old start, completes at once and calls `onComplete` a second time
  (`RestartAfterCompletion`).
- The cleanup does not clear `animationFrameRef`. It cancels only a truthy
  handle, so a handle of 0 would stay registered (`ZeroHandleSurvivesCleanup`).

## Model

| member | source | states |
|---|---|---|
| `TimeFormat.NatToString` | src/components/ResponsiveTimer/index.ts:33-35 | `toString()` of a non-negative integer gives decimal digits that read back as the number, one digit below 10, at most two below 100, with no leading zero |
| `TimeFormat.PadStart` | src/components/ResponsiveTimer/index.ts:33-35 | `padStart(width, fill)` gives at least `width` characters, keeps the original string as a suffix, fills only the added prefix, and never truncates |
| `TimeFormat.LeadingZerosValue` | src/components/ResponsiveTimer/index.ts:33-35 | zero padding in front of a numeral does not change the number it denotes |
| `TimeFormat.Pad2` | src/components/ResponsiveTimer/index.ts:33-35 | a field padded to two characters reads back as its value; it is exactly two wide below 100 and as wide as its digits from 100 on |
| `TimeFormat.Split` | src/components/ResponsiveTimer/index.ts:26-30 | floor division gives minutes and seconds in 0..59 and centiseconds in 0..99 |
| `TimeFormat.SplitValue` | src/components/ResponsiveTimer/index.ts:26-30 | the fields add up to the input less its last digit, the centiseconds are truncated rather than rounded, and the hours are the whole hours, zero exactly below 3 600 000 ms |
| `TimeFormat.ClockPart` | src/components/ResponsiveTimer/index.ts:35 | the `MM:SS.cc` template of padded minutes, seconds and centiseconds; `ClockPartShape` proves it is 8 characters with ':' at index 2, '.' at index 5 and digits elsewhere |
| `TimeFormat.Render` | src/components/ResponsiveTimer/index.ts:32-36 | the hour field and a ':' are put in front only when the hours are non-zero; `RenderLong` proves the long form reads back as the hours, and `FormatRoundTrip.ParseRender` that both forms read back as their fields |
| `TimeFormat.DefaultFormatTime` | src/components/ResponsiveTimer/index.ts:25-37 | `defaultFormatTime(ms)`; its shape is stated by `FormatShape`, its worked values by `FormatExamples`, and its inverse by `FormatRoundTrip.ParseFormatTime` |
| `TimeFormat.ClockPartShape` | src/components/ResponsiveTimer/index.ts:35 | the clock part of fields below 100 is 8 characters with ':' at index 2, '.' at index 5 and digits elsewhere |
| `TimeFormat.RenderLong` | src/components/ResponsiveTimer/index.ts:32-33 | with non-zero hours the output is the padded hour numeral, a ':' and the short form, and the numeral reads back as the hours |
| `TimeFormat.FormatShape` | src/components/ResponsiveTimer/index.ts:25-37 | below one hour the output is 8 characters with ':' at index 2, '.' at index 5 and digits elsewhere; from one hour on it is an hour numeral, a ':' and that 8-character form, the numeral reads back as the whole hours, is two digits below 100 hours and is not truncated at 100 hours or more |
| `TimeFormat.FormatExamples` | src/components/ResponsiveTimer/index.ts:25-37 | `defaultFormatTime(0)` is `"00:00.00"` and `defaultFormatTime(3661000)` is `"01:01:01.00"` |
| `FormatRoundTrip.ParseRender` | src/components/ResponsiveTimer/index.ts:32-36 | reading either output form back gives the hours, minutes, seconds and centiseconds it was rendered from |
| `FormatRoundTrip.ParseFormatTime` | src/components/ResponsiveTimer/index.ts:25-37 | parsing `defaultFormatTime(ms)` always succeeds and gives fields in range whose value is `ms - ms % 10` |
| `ResponsiveTimer.Truthy` | src/components/ResponsiveTimer/index.ts:58 | JavaScript truthiness of an optional non-negative number: `undefined` and 0 are falsy, everything else truthy (also used at lines 65, 67 and 97) |
| `ResponsiveTimer.OrZero` | src/components/ResponsiveTimer/index.ts:114 | the definition of `durationMs || 0`; the constructor's ensures states the initial countdown text it feeds, `formatter(durationMs)` |
| `ResponsiveTimer.Timer.CountdownFormat` | src/components/ResponsiveTimer/index.ts:74 | `formatTime || defaultFormatTime`: the supplied formatter when there is one, otherwise `DefaultFormatTime` |
| `ResponsiveTimer.Timer.ClockFormat` | src/components/ResponsiveTimer/index.ts:83 | `formatTime || formatCurrentTime`: the supplied formatter when there is one, otherwise the injected current-time formatter |
| `ResponsiveTimer.Remaining` | src/components/ResponsiveTimer/index.ts:71-72 | `max(0, durationMs - elapsed)` lies in 0..durationMs for a non-negative elapsed, is 0 exactly when the elapsed time reaches the duration, and otherwise is the duration minus the elapsed time |
| `ResponsiveTimer.RemainingAntitone` | src/components/ResponsiveTimer/index.ts:71-72 | more elapsed time never leaves more time remaining |
| `ResponsiveTimer.CountdownStep` | src/components/ResponsiveTimer/index.ts:63-72 | a countdown tick whose clock reading is no earlier than the last one re-anchors only on a falsy anchor, and the value it computes is no larger than the previous one; the first value is the whole duration |
| `ResponsiveTimer.CountdownIdle` | src/components/ResponsiveTimer/index.ts:61 | a frame that returns early leaves the countdown log's invariant intact as the clock moves on |
| `ResponsiveTimer.Timer.constructor` | src/components/ResponsiveTimer/index.ts:55-115 | the initial render shows `formatter(durationMs)` in countdown mode and the formatted wall time otherwise; countdown mode is fixed to the truthiness of `durationMs`; nothing is anchored or registered |
| `ResponsiveTimer.Timer.Start` | src/components/ResponsiveTimer/index.ts:91-93 | the effect registers exactly one frame, records its handle in the ref, and begins a new run |
| `ResponsiveTimer.Timer.Stop` | src/components/ResponsiveTimer/index.ts:96-99 | the cleanup removes the live registration exactly when the ref's handle is truthy, changes nothing else, and leaves the ref as it was, so a second cleanup does the same as the first |
| `ResponsiveTimer.Timer.Tick` | src/components/ResponsiveTimer/index.ts:60-89 | one frame: with no display element it returns without re-registering; in clock mode it renders the wall time, re-registers and never completes; in countdown mode it anchors only on a falsy anchor, renders `formatter(max(0, durationMs - elapsed))`, and then either completes (calls `onComplete` if given, registers nothing) or registers exactly one new frame; the first countdown frame renders the whole duration; a frame at which the whole duration has elapsed since a set anchor ends the loop (`Due`); every invariant of `Valid()` is kept |
| `ResponsiveTimer.Timer.CountdownTick` | src/components/ResponsiveTimer/index.ts:65-80 | the countdown branch: the anchor, the remaining time, the rendered text, and the choice between completing and re-registering |
| `ResponsiveTimer.Timer.ClockTick` | src/components/ResponsiveTimer/index.ts:81-88 | the clock branch: renders `formatter(Date.now())` and re-registers |
| `TimerScenarios.OneSecondCountdown` | src/components/ResponsiveTimer/index.ts:60-93 | a 1000 ms countdown ticked at 100, 500, 1000 and 1100 ms renders 1000, 600, 100 and 0 ms, then stops with `onComplete` called once |
| `TimerScenarios.CountdownFromClockZero` | src/components/ResponsiveTimer/index.ts:67-72 | with a first clock reading of 0 the anchor is set again on the next frame, so ticks at 0, 400, 900 and 1000 ms render 1000, 1000, 500 and 400 ms and the loop goes on |
| `TimerScenarios.RestartAfterCompletion` | src/components/ResponsiveTimer/index.ts:57-99 | a completed 1000 ms countdown whose effect runs again (cleanup, then start) measures from the old start instant: the next frame renders 0 ms, completes at once and logs a second `onComplete` call, with nothing left registered |
| `TimerScenarios.ZeroDurationRunsAsClock` | src/components/ResponsiveTimer/index.ts:58-65 | a `durationMs` of 0 runs the clock branch: it renders the wall time, keeps a frame registered and never calls `onComplete` |
| `TimerScenarios.StopBeforeFirstFrame` | src/components/ResponsiveTimer/index.ts:91-99 | cleaning up before the first frame leaves nothing registered and nothing rendered by a tick, and a second cleanup is harmless |
| `TimerScenarios.DetachedDisplayEndsLoop` | src/components/ResponsiveTimer/index.ts:61 | a frame without a display element renders nothing and registers nothing, so the loop ends |
| `TimerScenarios.ZeroHandleSurvivesCleanup` | src/components/ResponsiveTimer/index.ts:97-98 | the cleanup skips a falsy handle, so a registration with handle 0 would survive it |

## Left out

- `formatCurrentTime` (index.ts:39-47) and the `CurrentTime` variant read local-time fields of a JavaScript `Date`, which depend on the time zone. The timer takes that formatter as the function constant `currentTimeFormat`.
- The `Countdown` variant only passes its props through. `App.tsx` parses the query string, logs and lays out the page. `main.tsx` mounts the root. None of them is modelled.
- React itself is not modelled: hooks, element creation, styles, and re-rendering with changed props. A changed prop would rebuild `updateDisplay` but keep the old `isCountdownRef` and `startTimeRef`. The model has one component with fixed props.
- Real frame timing is not modelled. `requestAnimationFrame` handles, `performance.now()` and `Date.now()` are parameters of `Tick` and `Start`.
- `TimeFormat.NatToString`, `TimeFormat.DefaultFormatTime`: millisecond values are unbounded naturals, but the source's are JavaScript doubles. The model agrees with the source only up to 2^53 − 1 ms (`Number.MAX_SAFE_INTEGER`). Above that, `Math.floor(timeMs / 1000)` works on rounded quotients, and from 10^21 `toString()` switches to exponent notation (`"1e+21"`). No real timer reaches such values (2^53 ms is about 285 000 years).
- Time values are non-negative whole milliseconds. The browser's fractional `performance.now()` readings are not modelled. Negative, fractional and NaN `durationMs` values (possible from the query string) are not modelled either.
- The `onComplete` callback is a ghost log entry. A custom `formatTime` is a total function, so a formatter that throws is not modelled.
- `ResponsiveTimer.Timer.Tick`: requires the clock reading to be no earlier than the previous tick's, as `performance.now()` guarantees. It also requires a live registration, because the scheduler only runs registered callbacks.
- `ResponsiveTimer.Timer.Start`: requires that nothing of this component is registered. React runs the cleanup before re-running the effect, and the cleanup cancels the registration because `requestAnimationFrame` never returns 0. A second start over a surviving registration is not modelled.
- `TimerScenarios.OneSecondCountdown`, `CountdownFromClockZero` and `DetachedDisplayEndsLoop` pass a `formatTime` prop, so they state the values given to the formatter, not the default formatter's strings for them. The default formatter's worked values are in `TimeFormat.FormatExamples`.
