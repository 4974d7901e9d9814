# Status LED indicator

A model of `Led_Application.cpp`: a single virtual status LED whose color
(red, yellow, blue, white, off) and luminance reflect three independent
state axes of a device — the system state (booting, updating, error,
ready), the playback state (inactive, paused, playing) and the Bluetooth
state (inactive, pairing, connected). The class `Led` keeps the rendered
output and the last-known axis values, and offers one update per axis, a
combined playback + Bluetooth rule, a volume-change event, two flash
patterns and a fade-out.

Modules:

- `States` (`states.dfy`): the three axis enumerations.
- `Frames` (`frames.dfy`): the colors and their labels, the frames the LED
  reports, and the pure functions that describe the animated patterns
  (`Repeat` for the flash loops, `Countdown` for the fade-out,
  `FlashSleep`/`FlashDuration` for the time the flash loops sleep), with the
  lemmas about them.
- `LedApplication` (`led.dfy`): the class `Led`. Its fields `color` and
  `luminance` are updated in place through `SetColor`/`SetLuminance`, as in
  the source. Each printed line is appended to a ghost log
  `log: seq<Frame>`. Each sleep is added to a ghost millisecond counter
  `elapsed`. Every update method's `modifies` clause names only `color`,
  `luminance`, `log` and `elapsed`. Every update method also ensures that
  the call leaves `system`, `playback` and `bluetooth` unchanged. The
  constructor is the only member of the class that writes them.

A frame is `Shown(event, color, luminance?)` for a line
`<axis>:<event> -> <color>[@<luminance>]`, or `NotAsserted(event)` for the
"Not Asserted" lines. The color in a frame is the one the LED had when the
line was printed.

Behaviour of the code that a reader might not expect, and that the model
keeps:

- A 1 Hz or 2 Hz flash might be expected to last one second. The code
  runs `2 * frequencyHz` iterations that each sleep twice for
  `1000 / (2 * frequencyHz)` ms. That is `2000 - 4 * (500 % frequencyHz)` ms
  in all, so 2000 ms at 1 Hz and at 2 Hz (`FlashDurationExact`).
- Luminance is meant to stay within 0..100, but nothing clamps it. The
  model proves that the per-axis updates and `PlayBackUpdate` preserve that
  range, and so does `FadeOut`. The two flash methods preserve it when their
  luminance argument lies in 0..100; every call site passes 100.
  `PlaybackVolumeChanged` ends in range exactly when the volume is not
  negative.
- The Bluetooth flash never sets the flash color. Every one of its frames
  reports "off", and it ends in (off, 100). The model keeps this behaviour.
- A frequency `<= 0` makes the loop condition `i < frequencyHz * 2` false at
  once, so no division happens and nothing changes. The model allows such
  frequencies. The only precondition is that `frequencyHz * 2` fits in a
  32-bit `int`.

`FlashIterations`, `HalfPeriod`, `FlashSleep`, `FlashDuration`,
`SystemFlashBlock` and `BluetoothFlashBlock` in `Frames` are the vocabulary
the contracts use. They stand for the loop bound (`Led_Application.cpp:173`),
one sleep (`:177`, `:181`), the total sleep, and the pair of lines each flash
iteration prints (`:176`/`:180` and `:200`/`:203`). `HalfPeriod` has its own
row because its contract bounds the sleep.

## Model

| member | source | states |
|---|---|---|
| `Frames.ColorToString` | Led_Application.cpp:214-230 | the label of each color reads back as that color, so labels are never "unknown" |
| `Frames.LabelNamesItsColor` | Led_Application.cpp:214-230 | a label that names a color is that color's label ("red", "yellow", "blue", "white", "off") |
| `Frames.ColorLabelsDistinct` | Led_Application.cpp:214-230 | two colors have equal labels if and only if they are the same color |
| `Frames.RepeatLength` | Led_Application.cpp:173-182 | a loop of `n` iterations, each reporting a block of frames, reports `n` times the block's length |
| `Frames.RepeatAt` | Led_Application.cpp:173-182 | frame `k` of iteration `j` is frame `k` of the block |
| `Frames.HalfPeriod` | Led_Application.cpp:177 | one sleep of a flash iteration lasts between 0 and 500 ms |
| `Frames.HalfPeriodQuotient` | Led_Application.cpp:177 | `1000 / (2 * f)` equals `500 / f` for `f >= 1` |
| `Frames.FlashSleepLinear` | Led_Application.cpp:177-181 | `i` flash iterations sleep `i` times two half periods |
| `Frames.FlashDurationExact` | Led_Application.cpp:173-181 | a flash at `f >= 1` Hz sleeps `2000 - 4 * (500 % f)` ms: never more than 2000, exactly 2000 when `f` divides 500 |
| `Frames.SystemFlashAlternates` | Led_Application.cpp:171-183 | the system flash reports `4 * f` frames: "off" at even positions, the flash color at its luminance at odd ones |
| `Frames.BluetoothFlashAllOff` | Led_Application.cpp:195-206 | the Bluetooth flash reports `4 * f` frames, all with color off; the odd ones carry the luminance |
| `Frames.UpdatingFlash` | Led_Application.cpp:73-75 | "updating" reports off, yellow@100, off, yellow@100 and sleeps 2000 ms |
| `Frames.PairingFlash` | Led_Application.cpp:142-144 | "pairing" reports 8 frames, all with color off, and sleeps 2000 ms |
| `Frames.Countdown` | Led_Application.cpp:248-252 | the fade-out from `s` writes `s + 1` values, the `k`-th being `s - k`; nothing when `s < 0` |
| `Frames.CountdownShape` | Led_Application.cpp:248-252 | from `s >= 0` the values start at `s`, end at 0, strictly decrease and stay in `0..s` |
| `LedApplication.Led.constructor` | Led_Application.cpp:30-31 | starts at (off, 0) with the given axis values, an empty log and no time slept |
| `LedApplication.Led.SetColor` | Led_Application.cpp:33-36 | sets the color and nothing else |
| `LedApplication.Led.SetLuminance` | Led_Application.cpp:38-41 | sets the luminance and nothing else |
| `LedApplication.Led.GetColor` | Led_Application.cpp:43-46 | returns the current color |
| `LedApplication.Led.GetLuminance` | Led_Application.cpp:48-51 | returns the current luminance |
| `LedApplication.Led.SystemUpdate` | Led_Application.cpp:63-91 | error: (red, 100) with one frame; booting: (red, 10) with one frame; updating: the 1 Hz yellow@100 flash, ending at (yellow, 100); ready: output unchanged, one "Not Asserted" frame; the 0..100 range is preserved |
| `LedApplication.Led.PlaybackUpdate` | Led_Application.cpp:102-127 | inactive: off with luminance unchanged; playing: (white, 10); paused: (white, 50); one frame each; the range is preserved |
| `LedApplication.Led.BluetoothUpdate` | Led_Application.cpp:138-160 | pairing: the 2 Hz flash ending at (off, 100); connected: (blue, 10) with one frame; inactive: output unchanged, one "Not Asserted" frame; the range is preserved |
| `LedApplication.Led.FlashingEffectSystemUpdate` | Led_Application.cpp:171-183 | the log grows by `2 * f` off/on pairs, time by `FlashDuration(f)`; for `f >= 1` it ends at (flash color, luminance), otherwise nothing changes; the range is preserved when the luminance argument is in 0..100 |
| `LedApplication.Led.FlashingEffectBluetoothUpdate` | Led_Application.cpp:195-206 | the log grows by `2 * f` off / off@luminance pairs; for `f >= 1` it ends at (off, luminance), otherwise nothing changes; the range is preserved when the luminance argument is in 0..100 |
| `LedApplication.Led.PlaybackVolumeChanged` | Led_Application.cpp:235-242 | one (white, volume) frame, then the fade-out from the volume; ends off, at 0 when the volume is not negative; 3000 ms plus 100 ms per step; in range at the end exactly when the volume is not negative |
| `LedApplication.Led.FadeOut` | Led_Application.cpp:245-254 | writes the luminances `Countdown(start)` in order, ends off at 0 (or untouched when negative), sleeps 100 ms per step, reports nothing |
| `LedApplication.Led.PlayBackUpdate` | Led_Application.cpp:257-265 | (blue, 10) with one frame exactly when playing and connected; every other pair changes nothing and reports nothing |

## Left out

- `main` (the fixed demo call sequence): it drives the class and holds no logic.
- `std::this_thread::sleep_for`: no real waiting. The ghost counter `elapsed` adds up the requested milliseconds instead.
- `std::cout`: the text of each line is not modelled. A line is an abstract `Frame` carrying its event, its color and its optional luminance.
- The `State` fields `volume` and `playbackPosition`: they are never initialised or used.
- The `default:` branches of the three switches and the final `return "unknown"` of `colorToString`: they cannot be reached over closed datatypes.
- The inheritance of `Led` from `State`: one class holds all five fields.
- Luminance is an unbounded `int`. In the source it is a 32-bit `int`, but it only receives constants, the volume argument, and values counted down from a non-negative start. None of these can wrap.
