# Video player controller, modelled in Dafny

The repository is a single Next.js page, `Home` in `app/page.tsx`. It plays a
video with custom controls: play/pause, a seek bar, skip back and forward
10 s, mute, a volume slider and fullscreen. The logic behind the JSX is
small. Seven `useState` hooks hold the display state. A handful of handlers
copy the video element's state into the display (`updateTime`,
`updateDuration`, `handleEnded`) or turn gestures into commands on the
element (`togglePlay`, `handleProgressClick`, `skipTime`, `toggleMute`,
`handleVolumeChange`). `formatTime` prints a number of seconds as `M:SS`.

The model has four modules:

- `Numbers` (numbers.dfy) gives JavaScript numbers as exact reals, with NaN
  and the two infinities as explicit values. It also defines what the page
  does with them: `Math.min`, `Math.max`, `*`, `/`, `%` and truthiness.
- `TimeFormat` (time_format.dfy) holds `formatTime`. `Clock` is an
  independent description of the `M:SS` text for whole seconds, and
  `ParseClock` reads such a text back. The lemmas show that `formatTime` of a
  non-negative time is `Clock` of its whole seconds, and that reading the
  text back gives those seconds.
- `Playback` (playback.dfy) is the pure model. `View` is the display state,
  `Element` is the part of the video element the handlers touch (position,
  duration, muted flag, volume, and the log of play/pause commands it
  received), and `Player` holds both. `video` is `None` when the component
  holds no element. Each handler is a function from the old state to the new
  one. `Step` and `Run` replay a sequence of events, and the lemmas over them
  give the play/pause state machine and an invariant kept by every run.
- `PlayerView` (player_view.dfy) models the same component as objects, which
  is how the source works. `Home` has one field per hook and a nullable
  reference to a `VideoElement` object. Each handler is a method that assigns
  those fields in place. Each method is proved to move `Snapshot()` exactly
  as the matching `Playback` function does, so the `Playback` lemmas hold of
  the methods too.

Choices made where the platform decides the behaviour:

- `video.currentTime` is a restricted `double`, so assigning NaN or an
  infinity throws a `TypeError`. That is what happens in `skipTime` when the
  displayed duration is NaN, and in `handleProgressClick` when it is
  infinite. The handler then stops and nothing changes (`Playback.Seek`).
- Assigning `video.volume` outside [0, 1] throws an `IndexSizeError` before
  the display is updated (`Playback.SetVolume`).
- The seek-bar click is given as the fraction `clickX / rect.width`.

Where the code behaves differently from what one might expect, the model follows the code:

- `handleVolumeChange` sets the muted flag to exactly `level == 0`. A
  non-zero level therefore clears it, rather than leaving it as it was.
- `updateTime` divides by the element's duration with no guard. An unknown
  duration makes the progress NaN, and `0 / 0` does too. A positive position
  over a zero duration makes it +Infinity. The progress is not left
  unchanged in these cases.
- "progress = 100 · currentTime / duration" is not an invariant of the
  component. `updateTime` divides by the element's duration, while the click
  handler and `skipTime` use the displayed duration. `loadedmetadata` also
  changes the duration without recomputing the progress. The model proves
  the relation right after `timeupdate` and right after a click.

## Model

| member | source | states |
|---|---|---|
| `Numbers.Truthy` | app/page.tsx:38 | a number is truthy exactly when it is an infinity or a non-zero finite number, so NaN and 0 are falsy |
| `Numbers.Min` | app/page.tsx:86 | `Math.min`: NaN exactly when an argument is NaN, otherwise the smaller argument |
| `Numbers.Max` | app/page.tsx:86 | `Math.max`: NaN exactly when an argument is NaN, otherwise the larger argument |
| `Numbers.Times` | app/page.tsx:75 | a scaled number is finite exactly when the number is, and then it is the product; NaN stays NaN; an infinity times 0 is NaN; an infinity times a non-zero factor is an infinity that keeps its sign exactly when the factor is positive |
| `Numbers.Quotient` | app/page.tsx:22 | division by a non-zero finite duration inverts multiplication; the result is NaN exactly for a NaN duration or `0 / 0`; a positive number over 0 is +Infinity and a negative one -Infinity; dividing by an infinity gives 0 |
| `Numbers.Trunc` | app/page.tsx:52 | truncation toward zero lies within one of its argument, on the same side of zero |
| `Numbers.Remainder` | app/page.tsx:52 | `x % m` is `x` minus `m` times the truncated quotient, is smaller in magnitude than `m`, and is 0 or has the sign of `x` |
| `TimeFormat.Decimal` | app/page.tsx:53 | a non-negative integer prints as a numeral: digits only, no leading zero, a single digit exactly below 10 |
| `TimeFormat.IntegerString` | app/page.tsx:53 | an integer prints with a leading minus sign exactly when it is negative, followed by a numeral that reads back as its magnitude |
| `TimeFormat.PadStart` | app/page.tsx:53 | `padStart` gives the longer of the string and the width, ends with the string, and is filled in front |
| `TimeFormat.TwoDigits` | app/page.tsx:53 | the seconds field is exactly two digits whose value is the seconds |
| `TimeFormat.DecimalRoundTrip` | app/page.tsx:53 | reading a printed number back gives the number |
| `TimeFormat.NumeralRoundTrip` | app/page.tsx:53 | printing the value of a numeral gives the numeral back |
| `TimeFormat.ClockRoundTrip` | app/page.tsx:51-53 | reading a clock text back gives its seconds |
| `TimeFormat.ParseClockExact` | app/page.tsx:51-53 | `ParseClock(s) == Some(n)` if and only if `s` is the clock text of `n`, so the clock text is one-to-one |
| `TimeFormat.AcceptedIsClock` | app/page.tsx:51-53 | every text `ParseClock` accepts is the clock text of the number it reads as |
| `TimeFormat.FinitePrint` | app/page.tsx:51-53 | the template applied to `floor(s / 60)` and `floor(s % 60)` of a time of at least 0 is the clock text of its whole seconds |
| `TimeFormat.MinutesAndSeconds` | app/page.tsx:51-52 | for a time of at least 0, `floor(s / 60)` and `floor(s % 60)` are the whole minutes and the remaining seconds of `floor(s)`; for a negative time the minutes are negative |
| `TimeFormat.PaddedSeconds` | app/page.tsx:53 | padding the printed seconds to two characters with `'0'` gives exactly two digits |
| `TimeFormat.MinutesColonSeconds` | app/page.tsx:53 | for minutes of at least 0 and seconds in [0, 60), the template is the minutes' numeral, a colon and exactly two digits of seconds; it starts with a minus sign exactly for negative minutes |
| `TimeFormat.FormatTime` | app/page.tsx:49-54 | NaN shows as the clock text of 0; a time of at least 0 shows as the clock text of its whole seconds (unpadded minutes, a colon, two digits of seconds); a negative time shows with a leading minus sign |
| `TimeFormat.ClockZero` | app/page.tsx:50 | the clock text of 0 is `0:00` |
| `TimeFormat.FormatTimeRoundTrip` | app/page.tsx:49-54 | reading back the text of a time of at least 0 gives its whole seconds; NaN reads back as 0 |
| `TimeFormat.FormatTimeSameText` | app/page.tsx:49-54 | two times of at least 0 show the same text if and only if they have the same whole seconds |
| `TimeFormat.FormatTime75` | app/page.tsx:49-54 | 75 s shows as `1:15` |
| `TimeFormat.FormatTime5` | app/page.tsx:49-54 | 5 s shows as `0:05` |
| `TimeFormat.FormatTime59Point9` | app/page.tsx:49-54 | 59.9 s shows as `0:59`: fractions are dropped |
| `TimeFormat.FormatTimeHour` | app/page.tsx:49-54 | 3600 s shows as `60:00`: minutes are not wrapped into hours |
| `TimeFormat.FormatTimeNegative` | app/page.tsx:49-54 | -5 s shows as `-1:-5`: floor and `%` keep the sign in both fields |
| `Playback.InitialView` | app/page.tsx:8-14 | initial display: paused, not muted, time 0, duration 0, progress 0, volume 1, controls shown |
| `Playback.Mount` | app/page.tsx:37-40 | the first commit writes the displayed muted flag onto a present element; the duration is copied only from a present element with a truthy duration; nothing else changes |
| `Playback.UpdateTime` | app/page.tsx:20-23 | the display takes the element's position; progress × duration = 100 × position for a non-zero finite duration; NaN for a NaN duration or 0/0; +Infinity or -Infinity for a positive or negative position over a zero duration; 0 for a duration of +Infinity or -Infinity; nothing else changes |
| `Playback.UpdateDuration` | app/page.tsx:25-27 | the display takes the element's duration; nothing else changes |
| `Playback.Ended` | app/page.tsx:29-31 | the display shows paused whatever it showed before; nothing else changes |
| `Playback.TogglePlay` | app/page.tsx:56-66 | no element: no change; otherwise the flag flips and exactly one command is appended, `play` if the display now shows playing and `pause` if not |
| `Playback.Seek` | app/page.tsx:77 | the element accepts a new position exactly when it is finite |
| `Playback.ProgressClick` | app/page.tsx:68-80 | no change without an element, or when the displayed duration is 0, NaN or infinite; otherwise the element and the display get the same position, progress is `fraction · 100`, and position = duration × progress / 100 |
| `Playback.ProgressClickTarget` | app/page.tsx:72-78 | the click seeks to `fraction · duration`, and a click inside the bar lands within [0, duration] |
| `Playback.SkipTime` | app/page.tsx:82-88 | the display is untouched; a NaN duration changes nothing; otherwise only the position changes: it is at least 0, at most a finite non-negative duration, equals the target when the target is in range, and is clamped to 0 or to the duration otherwise |
| `Playback.ToggleMute` | app/page.tsx:90-96 | the element's muted flag is negated and the display's flag equals the element's new flag; nothing else changes |
| `Playback.SetVolume` | app/page.tsx:103 | the element accepts a volume exactly when it lies in [0, 1] |
| `Playback.CommitMuted` | app/page.tsx:133 | the re-render writes the `muted` prop onto the element exactly when the displayed flag changed, and touches nothing else |
| `Playback.VolumeChange` | app/page.tsx:98-106 | for a level in [0, 1], the element and display volumes become the level and the display shows muted if and only if the level is 0; the element's flag follows a changed display flag and is otherwise kept; out of range or without an element nothing changes |
| `Playback.Hover` | app/page.tsx:125-126 | entering the player shows the controls and leaving hides them; nothing else changes |
| `Playback.TogglePlayTwice` | app/page.tsx:56-66 | two toggles restore the display and send opposite commands |
| `Playback.SkipTimeExamples` | app/page.tsx:82-88 | at 5 s of 20 s, skipping -10 gives 0, skipping 1000 gives 20, and skipping 10 gives 15 |
| `Playback.VolumeChangeExamples` | app/page.tsx:98-106 | level 0 shows muted and level 0.5 does not |
| `Playback.UpdateTimeExample` | app/page.tsx:20-23 | 30 s of 120 s gives progress 25 |
| `Playback.Step` | app/page.tsx:33-35 | without an element, every event except the pointer entering or leaving changes nothing; no event attaches or detaches the element |
| `Playback.Run` | app/page.tsx:33-35 | a run of events never attaches or detaches the element |
| `Playback.StepPlaying` | app/page.tsx:29-66 | only `ended` and a toggle with an element present move the playing flag |
| `Playback.PlayingFollowsTogglesAndEnd` | app/page.tsx:8-66 | from the initial state, after any events the display shows playing if and only if an element is present and an odd number of toggles followed the last `ended` |
| `Playback.InitialInvariant` | app/page.tsx:8-40 | once mounted, the component is in the invariant: volumes in [0, 1], the displayed muted flag equals the element's, and playing only after a `play` command |
| `Playback.StepInvariant` | app/page.tsx:56-106 | every handler, with the re-render that follows it, keeps the invariant |
| `Playback.RunInvariant` | app/page.tsx:56-106 | every run of events keeps the invariant |
| `PlayerView.Home.constructor` | app/page.tsx:7-14 | the fields start at the hooks' initial values and hold the given element reference |
| `PlayerView.Home.Mount` | app/page.tsx:37-40 | the element's flag is set to `isMuted`, and the fields change as `Playback.Mount` says |
| `PlayerView.Home.UpdateTime` | app/page.tsx:20-23 | the fields change as `Playback.UpdateTime` says |
| `PlayerView.Home.UpdateDuration` | app/page.tsx:25-27 | the fields change as `Playback.UpdateDuration` says |
| `PlayerView.Home.HandleEnded` | app/page.tsx:29-31 | `isPlaying` is false, and the state changes as `Playback.Ended` says |
| `PlayerView.Home.TogglePlay` | app/page.tsx:56-66 | with an element the flag is negated and `play` or `pause` is called on it, as `Playback.TogglePlay` says |
| `PlayerView.Home.HandleProgressClick` | app/page.tsx:68-80 | the element and the fields change as `Playback.ProgressClick` says |
| `PlayerView.Home.SkipTime` | app/page.tsx:82-88 | only the element changes, as `Playback.SkipTime` says |
| `PlayerView.Home.ToggleMute` | app/page.tsx:90-96 | the element's flag is negated and `isMuted` copies it, as `Playback.ToggleMute` says |
| `PlayerView.Home.HandleVolumeChange` | app/page.tsx:98-106 | for a level in [0, 1], `volume` is the level and `isMuted` is `level == 0`; the element and the fields change as `Playback.VolumeChange` says |
| `PlayerView.Home.MouseEnter` | app/page.tsx:125 | the controls are shown |
| `PlayerView.Home.MouseLeave` | app/page.tsx:126 | the controls are hidden |
| `PlayerView.VideoElement.Play` | app/page.tsx:63 | `play()` appends one `play` command and changes nothing else |
| `PlayerView.VideoElement.Pause` | app/page.tsx:61 | `pause()` appends one `pause` command and changes nothing else |
| `PlayerView.VideoElement.SetMuted` | app/page.tsx:94 | assigning `muted` sets the flag and changes nothing else |
| `PlayerView.VideoElement.SetCurrentTime` | app/page.tsx:77 | the position is set exactly when the new value is finite; otherwise nothing changes |
| `PlayerView.VideoElement.SetVolume` | app/page.tsx:103 | the volume is set exactly when it lies in [0, 1]; otherwise nothing changes |

## Left out

- JSX, styling, icons and the `<style jsx>` block (app/page.tsx:119-287) are presentation only. Of the props, only `muted={isMuted}` (app/page.tsx:133) acts on the element; it is modelled by `Playback.CommitMuted`, in the first commit (`Playback.Mount`) and after `handleVolumeChange`. After `toggleMute` the write would store the flag the element already has, so it is not spelled out there.
- Listener registration and removal in `useEffect` (app/page.tsx:33-35, 42-46) are left out. Only the handler bodies are modelled, with `Step` standing in for the event wiring. `Playback.UpdateTime` and `Playback.UpdateDuration` require an element because those listeners are attached only to a present element.
- The element's own progress is reduced to two event payloads. `TimeUpdated` carries the position playback has reached, and `MetadataLoaded` carries the duration that was learnt. `ended` does not move the position, and the element keeps no paused flag of its own.
- TimeFormat.Decimal: prints every non-negative integer in plain digits. JavaScript switches to exponent notation from 10^21 on, which is roughly 3 · 10^13 years of video.
- `toggleFullscreen` (app/page.tsx:108-117) only calls the platform's fullscreen API, whose behaviour is outside the page.
- The promise returned by `video.play()`, media loading, decoding and the source URLs belong to the browser. The element records the commands it receives but does not play.
- The browser's own clamping of a seek to the seekable range is not modelled. The element stores the finite position it is given.
- Click geometry (`getBoundingClientRect`) is replaced by the click fraction.
- IEEE-754 rounding and signed zero are not modelled. Numbers are exact reals plus NaN and ±Infinity.
- React's batched, asynchronous state updates are modelled as immediate field assignments in a sequential model.
