# Interactive clock: time-dial arithmetic

A model of the logic of an interactive analog clock widget. The widget shows a dial with
hour and minute hands. The user sets the time in three ways: with two numeric spinners
(hour and minute), by dragging the minute hand round the dial, or with a "time now"
button. The only non-presentation logic is integer arithmetic on the dial. This model covers it:

- **Spinner carry.** The spinners may be dragged out of range. The hour is taken mod 24
  and the minute mod 60. When the minute wraps past 0 or 59 in a small raw step, the hour
  is carried down or up.
- **Drag carry.** When the dragged minute hand jumps by more than half the dial between
  two frames, the jump is read as passing the 12 mark. Falling from high to low adds an
  hour; rising from low to high takes one off.
- **Dial labels.** Tick `n` of the 60 ticks is drawn at the angle `TAU * n / 60`, and angle 0
  points at 3 o'clock. The labels `(n / 5 + 2) % 12 + 1` and `(n + 14) % 60 + 1` make up
  for that offset.
- **Frame state.** Each frame keeps the shown time, the dragged minute and the previous
  raw spinner minute, and updates them once.

Modules:

- `Wrappers` (`wrappers.dfy`): `Option`, for the source's optional values.
- `TimeOfDay` (`time_of_day.dfy`): the `Time` value with its ranges, `FromHms`
  (the fallible `Time::from_hms`), and minutes-of-day helpers.
- `Dial` (`dial.dfy`): the label formulas, the hand directions in tick units, and the loop
  that paints the face, with the painting replaced by collecting the label texts.
- `Carry` (`carry.dfy`): the two carry rules as functions, and lemmas saying what the
  rules mean.
- `App` (`app.dfy`): the frame state as a value, `State`. `Next` gives one frame of
  `TemplateApp::update` as a function, `Run` a sequence of frames, and lemmas state
  what frames do. The class `ClockApp` holds the fields `update` mutates. Its method
  `Step` performs one frame step by step and is proved to produce `Next` of the old state.

The main results:

- **Spinner.** A spinner step of less than 30 minutes moves the shown time by exactly
  the raw minute step, modulo a day (`SpinnerMovesClockByRawStep`). Over a whole drag of
  the minute spinner, the clock moves by the total change of the raw minute, however
  often the minute wraps past 0 or 59 (`SpinnerDragFollowsRawMinute`).
- **Drag.** In one frame, dragging the minute hand moves the shown time exactly as far
  as the hand moved the short way round (`DragMovesClockShortWay`). Over a whole drag the
  clock follows the path the hand travelled, so a full turn moves it by an hour
  (`HandDragFollowsHand`).
- **Labels.** Each minute and hour label is painted exactly once. The minute hand points
  at the label of the minute it shows, and the hour hand, on the full hour, at the label
  of the hour it shows.
- **Frames.** `Time::from_hms(...).unwrap()` cannot fail. From a settled state, which
  `Initial` and every frame without the button leave (except a frame that starts a hand
  drag while the minute spinner is off the dial), a frame without input keeps the shown
  hour and minute, and after it further idle frames change nothing.

One point in `Next` and `Step` is easy to misread in the source. At the end of a frame,
`prev_raw_minute` receives the minute of the drag angle stored by the previous frame
(`src/app.rs:263-267`), not the minute under the cursor in this frame. The minute under
the cursor goes only into the stored time (`src/app.rs:299`, `src/app.rs:326`).

Inputs that come from outside the logic are fields of `FrameInput`:

- the spinner values after this frame's edits;
- the floored minute under the cursor while the minute hand is dragged;
- whether the "time now" button was clicked;
- the local time, used by that button.

## Model

| member | source | states |
|---|---|---|
| `TimeOfDay.FromHms` | src/app.rs:326 | `from_hms` succeeds exactly when hour, minute and second are in range, and then holds those components |
| `Dial.HourLabel` | src/app.rs:47-50 | every hour label lies in 1..12 |
| `Dial.MinuteLabel` | src/app.rs:67 | every minute label lies in 1..60 |
| `Dial.FaceMinuteAt` | src/app.rs:46 | tick `n` points at minute `(n + 15) % 60` of a face with 12 at the top, a value in 0..59 |
| `Dial.MinuteHandTick` | src/app.rs:274 | the minute hand for minute `m`, drawn a quarter turn back from angle `TAU * m / 60`, points at a tick in 0..59 |
| `Dial.HourHandTick` | src/app.rs:240-258 | on the full hour, the hour hand points at an hour tick (a multiple of 5 below 60) |
| `Dial.MinuteLabelIsFaceMinute` | src/app.rs:67 | the minute label at a tick is the minute of that position on a conventional face, with 60 at the top; tick 0 reads 15 and tick 45 reads 60 |
| `Dial.HourLabelIsFaceHour` | src/app.rs:47-50 | the hour label at an hour tick is the hour of that position on a conventional face, with 12 at the top; tick 0 reads 3 and tick 45 reads 12 |
| `Dial.MinuteHandPointsAtItsLabel` | src/app.rs:270-277 | the minute hand showing minute `m` points at the label `m` (60 for minute 0) |
| `Dial.MinuteLabelRoundTrip` | src/app.rs:67 | from any tick, its label leads back, through the minute hand's direction, to the same tick |
| `Dial.HourHandPointsAtItsLabel` | src/app.rs:240-261 | on the full hour `h`, the hour hand points at the label `h % 12` (12 for 0 and 12) |
| `Dial.MinuteLabelsCoverDial` | src/app.rs:45-76 | the 60 minute labels in tick order name every minute 1..60, and no two are equal |
| `Dial.HourLabelsCoverDial` | src/app.rs:45-59 | the 12 hour labels in tick order name every hour 1..12, and no two are equal |
| `Dial.FaceLabels` | src/app.rs:45-76 | the face loop paints 12 hour labels and 60 minute labels, given by the label formulas; every hour 1..12 and every minute 1..60 appears exactly once |
| `Carry.SpinnerHour` | src/app.rs:203-236 | the spinner hour is always in 0..23; if the normalised minute did not change, or the raw step is 30 or more, it is the hour spinner's value mod 24 |
| `Carry.SpinnerCarriesCrossedHours` | src/app.rs:223-233 | for a raw step below 30, the hour moves by exactly the change of `rawMinute / 60`, the number of hour boundaries the raw minute crossed |
| `Carry.SpinnerMovesClockByRawStep` | src/app.rs:203-236 | for a raw step below 30, the shown time moves forward by exactly the raw minute step, modulo 1440 minutes |
| `Carry.SpinnerCarryDirection` | src/app.rs:223-232 | for a raw step below 30, the hour drops by one exactly when the raw minute fell while the normalised minute rose; it rises by one exactly when the raw minute rose while the normalised minute fell; otherwise it is unchanged |
| `Carry.SpinnerIdleOnDialMinutes` | src/app.rs:223-233 | when both raw minutes lie in 0..59, the spinner rule never carries, so a hand drag's carry is not applied twice |
| `Carry.DragHour` | src/app.rs:298-312 | the hour after the drag rule stays in 0..23 |
| `Carry.DragCarryDirection` | src/app.rs:300-311 | the hour rises by one exactly when the hand fell by more than 30 minutes; it drops by one exactly when the hand rose by more than 30; it is unchanged exactly when the jump is 30 or less |
| `Carry.HandMove` | src/app.rs:300-311 | the hand's move, read the short way round, lies in -30..30, agrees with the plain difference modulo 60, and is the plain difference for jumps of 30 or less |
| `Carry.DragMovesClockShortWay` | src/app.rs:298-312 | one drag step moves the shown time forward by exactly the hand's short-way move, modulo a day |
| `App.RememberedMinute` | src/app.rs:207-210 | the previous raw minute is the stored one, or the current raw minute on the first frame; so on the first frame the spinner rule never carries the hour, whatever the hour spinner holds |
| `App.HandMinute` | src/app.rs:244-265 | the minute the hand shows before this frame's drag lies in 0..59; it is the stored drag's minute when one is stored, otherwise it agrees with the raw spinner minute modulo 60 |
| `App.Initial` | src/app.rs:17-28 | the default state holds the current time, no drag and no previous minute, and is valid and settled |
| `App.Next` | src/app.rs:166-327 | one frame keeps the state valid, stores this frame's drag (or none), remembers the stored drag's minute if one was stored and otherwise this frame's raw spinner minute, and stores the local time when the button was clicked, else a time with second 0 |
| `App.FirstFrameShowsSpinners` | src/app.rs:203-213 | on the first frame with no drag, the time is the spinner values mod 24 and mod 60 |
| `App.SpinnerFrameMovesClock` | src/app.rs:203-236 | in a spinner frame, the clock shows the raw spinner minute mod 60; a raw step below 30 moves it by exactly that step; a step of 30 or more keeps the hour spinner's hour |
| `App.FrameSettles` | src/app.rs:263-327 | every frame without the button leaves a settled state (unless the hand drag starts while the minute spinner is off the dial) |
| `App.IdleFrameKeepsTime` | src/app.rs:166-236 | a frame without input, from a settled state, keeps the hour and the minute, and a second one changes nothing |
| `App.DragFrameMovesClock` | src/app.rs:289-327 | a drag frame with untouched spinners shows the dragged minute and carries the hour by the drag rule only; the clock moves exactly the hand's short-way move |
| `App.Run` | src/app.rs:144-146 | a sequence of frames keeps the state valid, and after at least one frame a raw minute is remembered |
| `App.SpinnerDragFollowsRawMinute` | src/app.rs:203-236 | over a drag of the minute spinner in steps below 30, the clock moves by exactly the last raw minute minus the remembered one, modulo a day, shows the last raw minute mod 60, and remembers that raw minute |
| `App.HandDragFollowsHand` | src/app.rs:289-312 | over a drag of the minute hand, the clock moves by exactly the path the hand travelled the short way round, modulo a day |
| `App.ClockApp.constructor` | src/app.rs:17-28 | the new widget's state is the default state |
| `App.ClockApp.Step` | src/app.rs:146-328 | mutating the fields step by step, and unwrapping `from_hms` safely, produces the state `Next` gives |

## Left out

- Rendering, layout and styling: painter calls, panels, the spinner widgets, hover and
  drag response handling, and the dark/light mode buttons. In `Dial.FaceLabels` the
  painting of a label is replaced by collecting its text.
- Floating-point angle arithmetic: `Vec2::angled`, the `atan2` of the cursor position,
  the `TAU` scaling and the `floor` casts. The stored drag angle (`minute_arrow_pos`) is
  modelled by its floored minute.
- App.Next: the dragged minute must lie in 0..59 (`FrameInput.Valid`). That is the
  intended range of `floor(angle * 60 / TAU)` for `angle` in `[0, TAU)`. An `f32` angle
  just below `TAU` that rounds to 60 would make `from_hms` fail; the model does not cover
  this.
- App.Next: when no drag is stored, the hand's minute before this frame's drag is taken
  to be the spinner minute. The source recomputes it as
  `floor((TAU * m / 60) * 60 / TAU)`, and the model assumes that float round trip is
  exact.
- The spinners' own behaviour is not modelled: how egui's `DragValue` turns cursor
  motion into successive values. `SpinnerDragFollowsRawMinute` takes the raw minutes of
  a drag as given.
- Reading the wall clock (`OffsetDateTime::now_local`, `now_utc`) is a foreign call. The
  current time is an input (`now`), assumed valid. Nanoseconds of `Time` are not
  modelled.
- Persistence through `eframe::get_value` / `set_value` and serde (`TemplateApp::new`,
  `save`) is host-framework I/O.
- The fields `hour_arrow_pos` and `change_hour` (with the `Hour` enum) are left out,
  because after the default state they are never read or changed.
- The commented-out `draw_minute_arrow` is dead code and is left out.
- The 32-bit width of the spinner values (`i32`) is not modelled. The model treats raw
  values as unbounded integers, so a spinner pushed to the `i32` limits is not covered.
- The store to `prev_raw_minute` inside the spinner rule (`src/app.rs:220`) is performed
  by `Step`. The unconditional store at the end of the frame overwrites it, so `Next`
  does not show it.
