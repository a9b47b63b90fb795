/**
 * The state the clock widget keeps from one frame to the next, and one frame of its
 * update: read the hour and minute spinners, apply the spinner carry, let a stored or
 * active drag of the minute hand override the minute and apply the drag carry, then
 * store the new time.
 */
module App {
  import opened Wrappers
  import opened TimeOfDay
  import opened Carry

  /**
   * What one frame receives from outside: the spinner values after this frame's edits
   * (the spinners start from the stored time and may be dragged out of range), the
   * floored minute under the cursor while the minute hand is dragged, whether the
   * "time now" button was clicked, and the local time.
   */
  datatype FrameInput = FrameInput(rawHour: int, rawMinute: int, drag: Option<int>,
                                   setLocalTime: bool, now: Time)
  {
    predicate Valid() {
      now.Valid() && (drag.Some? ==> 0 <= drag.value < 60)
    }
  }

  /**
   * The state kept between frames: the shown time, the minute of the stored drag angle
   * (None when no drag is stored) and the raw spinner minute of the previous frame
   * (None before the first frame).
   */
  datatype State = State(time: Time, minuteArrow: Option<int>, prevRawMinute: Option<int>)
  {
    predicate Valid() {
      time.Valid() && (minuteArrow.Some? ==> 0 <= minuteArrow.value < 60)
    }

    /**
     * The state agrees with itself: the remembered raw minute names the shown minute or
     * lies on the dial, and a stored drag shows the shown minute.
     */
    predicate Settled() {
      && (prevRawMinute.Some? ==>
            prevRawMinute.value % 60 == time.minute || 0 <= prevRawMinute.value < 60)
      && (minuteArrow.Some? ==> minuteArrow.value == time.minute)
    }
  }

  /** The state before the first frame: the current time, no drag, no frame seen yet. */
  function Initial(now: Time): (s: State)
    requires now.Valid()
    ensures s.Valid() && s.Settled()
    ensures s.time == now && s.minuteArrow.None? && s.prevRawMinute.None?
  {
    State(now, None, None)
  }

  /**
   * The raw minute the previous frame left behind; the first frame uses the current one,
   * so on the first frame the spinner rule never carries the hour.
   */
  function RememberedMinute(stored: Option<int>, rawMinute: int): (prev: int)
    ensures stored.None? ==> prev == rawMinute
    ensures stored.Some? ==> prev == stored.value
    ensures stored.None? ==> forall h :: SpinnerHour(h, prev, rawMinute) == h % 24
  {
    match stored
    case None => rawMinute
    case Some(value) => value
  }

  /**
   * The minute the hand shows before this frame's drag: the stored drag's minute when
   * one is stored, otherwise the spinner minute brought onto the dial.
   */
  function HandMinute(minuteArrow: Option<int>, rawMinute: int): (m: int)
    requires minuteArrow.Some? ==> 0 <= minuteArrow.value < 60
    ensures 0 <= m < 60
    ensures minuteArrow.Some? ==> m == minuteArrow.value
    ensures minuteArrow.None? ==> (m - rawMinute) % 60 == 0
  {
    if minuteArrow.Some? then minuteArrow.value else rawMinute % 60
  }

  /** A frame in which nothing is touched: the spinners show the stored time. */
  function IdleInput(s: State, now: Time): FrameInput {
    FrameInput(s.time.hour, s.time.minute, None, false, now)
  }

  /** One frame of `update`, as a function of the old state and the frame's input. */
  function Next(s: State, input: FrameInput): (r: State)
    requires s.Valid() && input.Valid()
    ensures r.Valid()
    ensures r.minuteArrow == input.drag
    ensures r.prevRawMinute == Some(if s.minuteArrow.Some? then s.minuteArrow.value else input.rawMinute)
    ensures input.setLocalTime ==> r.time == input.now
    ensures !input.setLocalTime ==> r.time.second == 0
  {
    var spinner := SpinnerHour(input.rawHour, RememberedMinute(s.prevRawMinute, input.rawMinute), input.rawMinute);
    var hand := HandMinute(s.minuteArrow, input.rawMinute);
    var time :=
      if input.setLocalTime then input.now
      else match input.drag
        case Some(dragMinute) => Time(DragHour(spinner, hand, dragMinute), dragMinute, 0)
        case None => Time(spinner, hand, 0);
    // the raw minute is replaced by the stored drag's minute, not this frame's
    var raw := if s.minuteArrow.Some? then s.minuteArrow.value else input.rawMinute;
    State(time, input.drag, Some(raw))
  }

  /** The first frame, with no drag, shows the spinners' values brought into range. */
  lemma FirstFrameShowsSpinners(now: Time, input: FrameInput)
    requires now.Valid() && input.Valid()
    requires input.drag.None? && !input.setLocalTime
    ensures Next(Initial(now), input).time == Time(input.rawHour % 24, input.rawMinute % 60, 0)
  {
  }

  /**
   * A spinner frame moves the clock, measured from the hour spinner's hour and the
   * remembered minute, by exactly the raw minute step when that step is below 30, and
   * keeps the hour spinner's hour when the step is 30 or more.
   */
  lemma {:induction false} SpinnerFrameMovesClock(s: State, input: FrameInput)
    requires s.Valid() && input.Valid()
    requires s.prevRawMinute.Some? && s.minuteArrow.None?
    requires input.drag.None? && !input.setLocalTime
    ensures var prev, t := s.prevRawMinute.value, Next(s, input).time;
      && (Abs(input.rawMinute - prev) < 30 ==>
            Forward(ClockMinutes(input.rawHour % 24, prev % 60), ClockMinutes(t.hour, t.minute))
              == (input.rawMinute - prev) % 1440)
      && (Abs(input.rawMinute - prev) >= 30 ==> t.hour == input.rawHour % 24)
      && t.minute == input.rawMinute % 60
  {
    var prev := s.prevRawMinute.value;
    if Abs(input.rawMinute - prev) < 30 {
      SpinnerMovesClockByRawStep(input.rawHour, prev, input.rawMinute);
    }
  }

  /**
   * Every frame without the "time now" button leaves a settled state, unless a hand
   * drag starts while the minute spinner is off the dial.
   */
  lemma FrameSettles(s: State, input: FrameInput)
    requires s.Valid() && input.Valid()
    requires !input.setLocalTime
    requires input.drag.Some? && s.minuteArrow.None? ==> 0 <= input.rawMinute < 60
    ensures Next(s, input).Settled()
  {
  }

  /**
   * A frame without input, from a settled state, keeps the hour and the minute, and a
   * second such frame changes nothing at all.
   */
  lemma {:induction false} IdleFrameKeepsTime(s: State, now: Time)
    requires s.Valid() && s.Settled() && now.Valid()
    ensures var t := Next(s, IdleInput(s, now));
      && t.time == Time(s.time.hour, s.time.minute, 0)
      && t.Settled()
      && Next(t, IdleInput(t, now)) == t
  {
    var prev := RememberedMinute(s.prevRawMinute, s.time.minute);
    if prev % 60 != s.time.minute {
      SpinnerIdleOnDialMinutes(s.time.hour, prev, s.time.minute);
    }
    var t := Next(s, IdleInput(s, now));
    assert t.prevRawMinute == Some(t.time.minute);
  }

  /** The state after a sequence of frames. */
  function Run(s: State, inputs: seq<FrameInput>): (r: State)
    requires s.Valid()
    requires forall i :: 0 <= i < |inputs| ==> inputs[i].Valid()
    ensures r.Valid()
    ensures inputs != [] ==> r.prevRawMinute.Some?
    decreases |inputs|
  {
    if inputs == [] then s else Run(Next(s, inputs[0]), inputs[1..])
  }

  /**
   * The frames of one drag of the minute spinner: the hour spinner shows the stored
   * hour, the hand is neither dragged nor stored, and each raw minute lies less than 30
   * from the previous frame's.
   */
  predicate SpinnerDrag(s: State, inputs: seq<FrameInput>)
    requires s.Valid()
    requires forall i :: 0 <= i < |inputs| ==> inputs[i].Valid()
    decreases |inputs|
  {
    inputs == [] ||
    (&& s.prevRawMinute.Some? && s.minuteArrow.None?
     && inputs[0].rawHour == s.time.hour && inputs[0].drag.None? && !inputs[0].setLocalTime
     && Abs(inputs[0].rawMinute - s.prevRawMinute.value) < 30
     && SpinnerDrag(Next(s, inputs[0]), inputs[1..]))
  }

  /**
   * Over a whole drag of the minute spinner the clock follows the raw minute: it moves
   * forward by exactly the total change of the raw minute, modulo a day, however often
   * the minute wraps past 0 or 59 on the way.
   */
  lemma {:induction false} SpinnerDragFollowsRawMinute(s: State, inputs: seq<FrameInput>)
    requires s.Valid() && s.prevRawMinute.Some? && s.time.minute == s.prevRawMinute.value % 60
    requires forall i :: 0 <= i < |inputs| ==> inputs[i].Valid()
    requires SpinnerDrag(s, inputs)
    ensures var r := Run(s, inputs);
      var last := if inputs == [] then s.prevRawMinute.value else inputs[|inputs| - 1].rawMinute;
      && r.prevRawMinute == Some(last) && r.time.minute == last % 60
      && Forward(ClockMinutes(s.time.hour, s.time.minute), ClockMinutes(r.time.hour, r.time.minute))
           == (last - s.prevRawMinute.value) % 1440
    decreases |inputs|
  {
    if inputs != [] {
      var t := Next(s, inputs[0]);
      var tail := inputs[1..];
      var a, b := s.prevRawMinute.value, inputs[0].rawMinute;
      var last := inputs[|inputs| - 1].rawMinute;
      var x, y := ClockMinutes(s.time.hour, s.time.minute), ClockMinutes(t.time.hour, t.time.minute);
      assert t.Valid() && t.prevRawMinute == Some(b) && t.time.minute == b % 60
             && Forward(x, y) == (b - a) % 1440 by {
        SpinnerFrameMovesClock(s, inputs[0]);
        assert s.time.hour % 24 == s.time.hour;
      }
      var r := Run(t, tail);
      var z := ClockMinutes(r.time.hour, r.time.minute);
      assert r.prevRawMinute == Some(last) && r.time.minute == last % 60
             && Forward(y, z) == (last - b) % 1440 by {
        assert SpinnerDrag(t, tail);
        SpinnerDragFollowsRawMinute(t, tail);
        // the last raw minute of the tail is the last one of the whole drag
        assert (if tail == [] then b else tail[|tail| - 1].rawMinute) == last;
      }
      assert r == Run(s, inputs);
      ForwardAdds(x, y, z, b - a, last - b);
    }
  }

  /**
   * A drag frame from a settled state whose spinners are untouched shows the dragged
   * minute, carries the hour by the drag rule alone, moves the clock exactly as far as
   * the hand moved the short way round, and leaves a settled state.
   */
  lemma {:induction false} DragFrameMovesClock(s: State, input: FrameInput)
    requires s.Valid() && s.Settled() && input.Valid()
    requires input.rawHour == s.time.hour && input.rawMinute == s.time.minute
    requires input.drag.Some? && !input.setLocalTime
    ensures var t, d := Next(s, input), input.drag.value;
      && t.time == Time(DragHour(s.time.hour, s.time.minute, d), d, 0)
      && t.Settled()
      && Forward(ClockMinutes(s.time.hour, s.time.minute), ClockMinutes(t.time.hour, t.time.minute))
           == HandMove(s.time.minute, d) % 1440
  {
    var d := input.drag.value;
    var prev := RememberedMinute(s.prevRawMinute, s.time.minute);
    if prev % 60 != s.time.minute {
      SpinnerIdleOnDialMinutes(s.time.hour, prev, s.time.minute);
    }
    // the spinners add nothing: the drag starts from the shown hour and minute
    assert SpinnerHour(s.time.hour, prev, s.time.minute) == s.time.hour;
    assert HandMinute(s.minuteArrow, s.time.minute) == s.time.minute;
    var h := DragHour(s.time.hour, s.time.minute, d);
    var t := Next(s, input);
    assert t.time == Time(h, d, 0);
    DragMovesClockShortWay(s.time.hour, s.time.minute, d);
    FrameSettles(s, input);
  }

  /**
   * The frames of one drag of the minute hand: the spinners show the stored time, the
   * hand is dragged in every frame and the button is not clicked.
   */
  predicate HandDrag(s: State, inputs: seq<FrameInput>)
    requires s.Valid()
    requires forall i :: 0 <= i < |inputs| ==> inputs[i].Valid()
    decreases |inputs|
  {
    inputs == [] ||
    (&& inputs[0].rawHour == s.time.hour && inputs[0].rawMinute == s.time.minute
     && inputs[0].drag.Some? && !inputs[0].setLocalTime
     && HandDrag(Next(s, inputs[0]), inputs[1..]))
  }

  /** How far the hand travels, frame by frame the short way round, starting at `from`. */
  function HandPath(from: int, inputs: seq<FrameInput>): int
    requires 0 <= from < 60
    requires forall i :: 0 <= i < |inputs| ==> inputs[i].Valid() && inputs[i].drag.Some?
    decreases |inputs|
  {
    if inputs == [] then 0
    else
      assert inputs[0].Valid();
      HandMove(from, inputs[0].drag.value) + HandPath(inputs[0].drag.value, inputs[1..])
  }

  /**
   * Over a whole drag of the minute hand the clock follows the hand: it moves forward by
   * exactly the path the hand travelled, modulo a day, so a full turn clockwise moves it
   * an hour on and a full turn back an hour back.
   */
  lemma {:induction false} HandDragFollowsHand(s: State, inputs: seq<FrameInput>)
    requires s.Valid() && s.Settled()
    requires forall i :: 0 <= i < |inputs| ==> inputs[i].Valid() && inputs[i].drag.Some?
    requires HandDrag(s, inputs)
    ensures var r := Run(s, inputs);
      && r.Settled()
      && Forward(ClockMinutes(s.time.hour, s.time.minute), ClockMinutes(r.time.hour, r.time.minute))
           == HandPath(s.time.minute, inputs) % 1440
    decreases |inputs|
  {
    if inputs != [] {
      var t := Next(s, inputs[0]);
      var d := inputs[0].drag.value;
      var tail := inputs[1..];
      DragFrameMovesClock(s, inputs[0]);
      assert t.Valid() && t.Settled() && t.time.minute == d;
      assert HandDrag(t, tail);
      HandDragFollowsHand(t, tail);
      var r := Run(t, tail);
      assert r == Run(s, inputs);
      assert HandPath(s.time.minute, inputs) == HandMove(s.time.minute, d) + HandPath(d, tail);
      var x, y, z := ClockMinutes(s.time.hour, s.time.minute), ClockMinutes(t.time.hour, t.time.minute),
                     ClockMinutes(r.time.hour, r.time.minute);
      ForwardAdds(x, y, z, HandMove(s.time.minute, d), HandPath(d, tail));
    }
  }

  /** Moving forward by `d1` and then by `d2` moves forward by `d1 + d2`. */
  lemma ForwardAdds(x: int, y: int, z: int, d1: int, d2: int)
    requires Forward(x, y) == d1 % 1440 && Forward(y, z) == d2 % 1440
    ensures Forward(x, z) == (d1 + d2) % 1440
  {
    assert (y - x - d1) % 1440 == 0 && (z - y - d2) % 1440 == 0;
    assert (z - x - (d1 + d2)) % 1440 == 0;
  }

  /** The widget's state, updated in place once per frame. */
  class ClockApp {
    /** The time the clock shows. */
    var time: Time
    /** The minute of the dragged minute hand's angle, floored into 0..59; None when no drag is stored. */
    var minuteArrow: Option<int>
    /** The raw spinner minute of the previous frame; None before the first frame. */
    var prevRawMinute: Option<int>

    function Current(): State
      reads this
    {
      State(time, minuteArrow, prevRawMinute)
    }

    constructor (now: Time)
      requires now.Valid()
      ensures Current() == Initial(now)
    {
      time := now;
      minuteArrow := None;
      prevRawMinute := None;
    }

    /** One frame of `update`. */
    method Step(input: FrameInput)
      requires Current().Valid() && input.Valid()
      modifies this
      ensures Current() == Next(old(Current()), input)
    {
      // `spinner` and `hand` name the values `Next` computes; the asserts below that
      // mention them only guide the solver, which otherwise needs far more resources
      ghost var spinner := SpinnerHour(input.rawHour, RememberedMinute(prevRawMinute, input.rawMinute), input.rawMinute);
      ghost var hand := HandMinute(minuteArrow, input.rawMinute);
      var raw := input.rawMinute;
      var normMinute := raw % 60;
      var prevRaw := RememberedMinute(prevRawMinute, raw);
      if prevRaw % 60 != normMinute {
        prevRawMinute := Some(raw);
      }
      var normHour := SpinnerHour(input.rawHour, prevRaw, raw);
      normHour := normHour % 24;
      assert normHour == spinner;

      // the minute the hand shows before this frame's drag
      var handMinute := normMinute;
      if minuteArrow.Some? {
        handMinute := minuteArrow.value;
        normMinute := handMinute;
        raw := normMinute;
      }
      assert handMinute == hand;

      match input.drag {
        case Some(dragMinute) =>
          minuteArrow := Some(dragMinute);
          normMinute := dragMinute;
          normHour := DragHour(normHour, handMinute, normMinute);
          assert normHour == DragHour(spinner, hand, dragMinute) && normMinute == dragMinute;
        case None =>
          minuteArrow := None;
          assert normHour == spinner && normMinute == hand;
      }
      normHour := normHour % 24;

      prevRawMinute := Some(raw);
      if input.setLocalTime {
        time := input.now;
      } else {
        // `unwrap` cannot fail: both components are in range here
        time := FromHms(normHour, normMinute, 0).value;
      }
    }
  }
}
