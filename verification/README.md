# Cycle timer with music: a Dafny model of its countdown and music loader

The timer page (`script.js`) keeps one countdown in three module-level variables: `timeLeft`
(seconds, 25 minutes at load), `isRunning` and the `setInterval` handle `timer`. Start is guarded
against re-entry and schedules a callback once per second; each firing decrements a positive
`timeLeft`, and at zero clears the interval, stops and alerts. Reset clears the interval, stops and
restores 25 minutes. The display shows `MM:SS`, each field zero-padded to two characters. A music
URL is accepted when it contains `youtube.com`, and the text written into the iframe's `src`
attribute is that URL with its first `watch?v=` replaced by `embed/`.

The model has four modules:

- `Optional` (`optional.dfy`): the `Option` datatype.
- `Clock` (`clock.dfy`): `Decimal` (`toString`), `PadStart` (`padStart`), `Format` (the
  display text), and `ParseClock`, which reads a display text back and exists as the partner of
  `Format` for the round-trip lemma.
- `Countdown` (`countdown.dfy`): a pure state machine (`TimerState`, `Event`, `Step`, `Run`)
  with its invariant `Inv`, lemmas about event sequences, and the class `Timer`, whose fields are
  the page's variables and whose methods `Start`, `Tick` (the interval callback) and `Reset` are
  proved to perform exactly `Step`. The interval handle is modelled by a ghost count of scheduled
  loops; `Inv` says it is 1 while running and 0 otherwise, which is what the start guard buys.
- `MusicLoader` (`music_loader.dfy`): `IndexOf`, `Includes` (`includes`), `ReplaceFirst`
  (`replace` with a string pattern), and `LoadMusic`, which takes the text currently written
  into the iframe's `src` attribute and returns the new one with a flag for the invalid-URL alert.

This revision of `script.js` has one 25-minute countdown that stops at zero and one music URL;
the model follows the code.

## Model

| member | source | states |
|---|---|---|
| Clock.PadStart | script.js:16-17 | `padStart` with a one-character fill: the result is as long as the wider of `s` and the width, ends with `s`, and is filled with the fill character before it |
| Clock.ValueOfDecimal | script.js:16-17 | `toString` of a non-negative integer is a numeral that denotes that integer |
| Clock.DecimalLength | script.js:16-17 | the numeral has one digit exactly when n < 10, and at most two exactly when n < 100 |
| Clock.DecimalNoLeadingZero | script.js:16-17 | the numeral starts with '0' only for 0 |
| Clock.ValueLeadingZeros | script.js:16-17 | padding with leading zeros does not change the value a numeral denotes |
| Clock.FieldValue | script.js:16-17 | a padded field denotes its number, has at least two characters, and exactly two precisely when the number is below 100 |
| Clock.FieldTwoDigits | script.js:16-17 | below 100 a field is the tens digit followed by the units digit |
| Clock.FormatFields | script.js:16-18 | the display is a minutes field of at least two digits denoting `timeLeft / 60`, ':' and a seconds field of exactly two digits denoting `timeLeft % 60` |
| Clock.FormatRoundTrip | script.js:16-18 | parsing the display back gives `minutes * 60 + seconds == timeLeft` |
| Clock.FormatInjective | script.js:16-18 | different times give different display texts |
| Clock.FormatLength | script.js:16-18 | the display has length 5 if and only if `timeLeft < 6000` |
| Clock.FormatFixedWidth | script.js:16-18 | under 6000 seconds the display is, digit by digit, `M M : S S` of `timeLeft / 60` and `timeLeft % 60` |
| Countdown.Run | script.js:21-41 | every state reached from a state satisfying the invariant (time in [0, 1500], one loop exactly while running) satisfies it |
| Countdown.StartGuard | script.js:22 | start while running changes nothing: no second loop, same time |
| Countdown.StartIdempotent | script.js:22-24 | starting twice in a row equals starting once |
| Countdown.StartFromStopped | script.js:23-24 | start from a stopped state runs the timer with exactly one loop and the time unchanged |
| Countdown.TickRunning | script.js:25-32 | a tick with time left decrements it by one and keeps running; a tick at zero stops the timer with no loop left and the time at 0; the time never goes negative |
| Countdown.ResetFromAny | script.js:36-39 | reset from any reachable state gives the load state: 1500 seconds, stopped, no loop |
| Countdown.RunAppend | script.js:24-33 | running two event sequences one after the other equals running their concatenation |
| Countdown.Bounded | script.js:4 | from the invariant, `timeLeft` stays in [0, 1500] across any sequence of starts, ticks and resets |
| Countdown.CountDown | script.js:25-27 | a running timer with n seconds left shows n - k after k <= n ticks, still running |
| Countdown.FullSession | script.js:4 | from load, start and 1500 ticks leave 0 seconds and running; the 1501st tick stops the timer |
| Countdown.NoIncreaseWithoutReset | script.js:25-26 | without a reset, `timeLeft` never increases |
| Countdown.TicksAfterReset | script.js:36-39 | after a reset no callback fires: any number of ticks leaves the load state |
| Countdown.RestartExpired | script.js:28-31 | starting a timer that ran out stops it again at the first tick |
| Countdown.Timer.constructor | script.js:2-4 | the load state: 1500 seconds, not running, no loop |
| Countdown.Timer.Start | script.js:21-24 | performs `Step(_, Start)`; while running leaves every field unchanged, else sets running with the time unchanged and one loop |
| Countdown.Timer.Tick | script.js:24-33 | performs `Step(_, Tick)`; decrements a positive time and keeps running, at zero stops with the time 0 and no loop |
| Countdown.Timer.Reset | script.js:36-41 | performs `Step(_, Reset)`; the new state is the load state |
| Countdown.Timer.Display | script.js:15-19 | the display text is `Format(timeLeft)`, five characters long, and parses back to `timeLeft` |
| MusicLoader.IndexOfFrom | script.js:46 | the result is the leftmost occurrence at or after `from`, or none exists there |
| MusicLoader.IndexOf | script.js:49 | the result is the leftmost occurrence, or the pattern occurs nowhere |
| MusicLoader.Includes | script.js:46 | true if and only if the pattern occurs somewhere in the string |
| MusicLoader.LoadMusic | script.js:44-56 | the alert is raised if and only if the URL does not contain `youtube.com`; then the player is unchanged; otherwise it shows the rewritten URL |
| MusicLoader.FirstOccurrenceUnique | script.js:49 | there is only one leftmost occurrence |
| MusicLoader.ReplaceAbsent | script.js:49 | without an occurrence, replace returns its input |
| MusicLoader.ReplaceAtFirst | script.js:49 | with the leftmost occurrence at i, replace puts the replacement in place of exactly that occurrence; the length changes by the difference of their lengths |
| MusicLoader.ReplaceKeepsLater | script.js:49 | only the first occurrence is replaced: a later occurrence survives, shifted |
| MusicLoader.ReplaceKeepsSurroundings | script.js:49 | text before and after the replaced occurrence is unchanged |
| MusicLoader.MarkerAndWatchDisjoint | script.js:46-49 | occurrences of `youtube.com` and `watch?v=` never overlap |
| MusicLoader.EmbedKeepsMarker | script.js:46-49 | the embed source of an accepted URL still contains `youtube.com` |
| MusicLoader.EmbedSource | script.js:46-49 | an accepted URL without `watch?v=` is embedded as is; with one, its first `watch?v=` becomes `embed/` and nothing else changes |

## Left out

- DOM lookups and writes (`getElementById`, `textContent`, `innerHTML`), the iframe markup around the embed source, and reading the URL input: rendering and input, kept only as the computed strings.
- MusicLoader.LoadMusic: `player` is the text interpolated into the iframe's `src` attribute; the URL is put into `innerHTML` unescaped, so the source the browser actually loads (after HTML decoding, with `&amp;` read as `&` and a `"` ending the attribute) is not captured.
- MusicLoader: strings are sequences of Unicode scalar values, while JavaScript strings are UTF-16 code units; for the ASCII patterns `youtube.com` and `watch?v=` the results agree, but a URL holding a lone surrogate cannot be expressed in the model.
- `setInterval`/`clearInterval` and wall-clock timing: a tick is one call of `Timer.Tick`; the handle `timer` is a ghost count of scheduled loops, not a value.
- `alert` dialogs: the time-up alert is the stop at zero, the invalid-URL alert is the `alerted` flag of `LoadMusic`.
- Event-listener wiring and the initial display call (script.js:58-64): glue that calls the modelled operations.
- Playback in the embedded player: third-party code.
- JavaScript numbers are doubles; the model uses integers, which is exact for the values 0 to 1500 that `timeLeft` takes.
- Countdown.Timer.Tick: requires `isRunning`, because the callback only fires while its interval is scheduled.
- MusicLoader.ReplaceFirst: models `replace` only for a replacement string without `$` patterns, which holds for `embed/`.
