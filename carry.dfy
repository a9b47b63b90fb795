/**
 * The hour carry rules of one frame. The minute spinner and the dragged minute hand
 * both change only the minute; these rules decide when such a change has passed the
 * top of the dial and the hour must move with it.
 */
module Carry {
  import opened TimeOfDay

  function Abs(x: int): nat {
    if x < 0 then -x else x
  }

  /**
   * The hour after the spinner rule. `rawHour` and `rawMinute` are the spinner values,
   * which may lie outside 0..23 and 0..59; `prevRawMinute` is the raw minute remembered
   * from the previous frame. A raw step of less than 30 minutes that wraps the
   * normalised minute below 0 takes an hour off, one that wraps it past 59 adds one.
   */
  function SpinnerHour(rawHour: int, prevRawMinute: int, rawMinute: int): (h: int)
    ensures 0 <= h < 24
    ensures rawMinute % 60 == prevRawMinute % 60 ==> h == rawHour % 24
    ensures Abs(rawMinute - prevRawMinute) >= 30 ==> h == rawHour % 24
  {
    var hour := rawHour % 24;
    var minute := rawMinute % 60;
    var prevMinute := prevRawMinute % 60;
    if prevMinute != minute && Abs(rawMinute - prevRawMinute) < 30 then
      var down := if rawMinute < prevRawMinute && minute > prevMinute then (hour - 1) % 24 else hour;
      if rawMinute > prevRawMinute && minute < prevMinute then (down + 1) % 24 else down
    else
      hour
  }

  /**
   * The spinner rule carries exactly the hour boundaries the raw minute crossed: for a
   * step of less than 30 the hour moves by the change of `rawMinute / 60`.
   */
  lemma {:induction false} SpinnerCarriesCrossedHours(rawHour: int, prevRawMinute: int, rawMinute: int)
    requires Abs(rawMinute - prevRawMinute) < 30
    ensures SpinnerHour(rawHour, prevRawMinute, rawMinute)
         == (rawHour + rawMinute / 60 - prevRawMinute / 60) % 24
  {
    var q, p := rawMinute / 60, prevRawMinute / 60;
    var r, s := rawMinute % 60, prevRawMinute % 60;
    assert rawMinute == 60 * q + r && prevRawMinute == 60 * p + s;
    if q < p {
      assert q == p - 1;
      assert r > s;
    } else if q > p {
      assert q == p + 1;
      assert r < s;
    } else {
      assert rawMinute - prevRawMinute == r - s;
    }
  }

  /** Whole days do not change a minute of the day. */
  lemma DropDays(k: int, y: int)
    ensures (1440 * k + y) % 1440 == y % 1440
  {
  }

  /**
   * A spinner step of less than 30 minutes moves the clock forward by exactly the raw
   * minute change, wrapping over midnight: the hour carry keeps hour and minute in step.
   */
  lemma {:induction false} SpinnerMovesClockByRawStep(rawHour: int, prevRawMinute: int, rawMinute: int)
    requires Abs(rawMinute - prevRawMinute) < 30
    ensures Forward(ClockMinutes(rawHour % 24, prevRawMinute % 60),
                    ClockMinutes(SpinnerHour(rawHour, prevRawMinute, rawMinute), rawMinute % 60))
         == (rawMinute - prevRawMinute) % 1440
  {
    var q, p := rawMinute / 60, prevRawMinute / 60;
    var r, s := rawMinute % 60, prevRawMinute % 60;
    var a := rawHour % 24;
    var x := rawHour + q - p;
    SpinnerCarriesCrossedHours(rawHour, prevRawMinute, rawMinute);
    var h := SpinnerHour(rawHour, prevRawMinute, rawMinute);
    assert h == x % 24;
    var step := (q - p) * 60 + r - s;
    assert rawMinute - prevRawMinute == step;
    // the carried hour differs from `x` by whole days
    assert x == 24 * (x / 24) + h;
    assert h * 60 + r - a * 60 - s == 1440 * (-(x / 24)) + (x * 60 + r - a * 60 - s);
    DropDays(-(x / 24), x * 60 + r - a * 60 - s);
    // and `x * 60` differs from `a * 60 + step` by whole days too
    assert rawHour == 24 * (rawHour / 24) + a;
    assert x * 60 + r - a * 60 - s == 1440 * (rawHour / 24) + step;
    DropDays(rawHour / 24, step);
  }

  /**
   * When both raw minutes already lie on the dial the spinner rule never carries, so
   * the frames of a hand drag, whose raw minutes come from the clock itself, do not
   * move the hour a second time.
   */
  lemma SpinnerIdleOnDialMinutes(rawHour: int, prevRawMinute: int, rawMinute: int)
    requires 0 <= prevRawMinute < 60 && 0 <= rawMinute < 60
    ensures SpinnerHour(rawHour, prevRawMinute, rawMinute) == rawHour % 24
  {
  }

  /**
   * The spinner rule in both directions: for a step of less than 30 minutes the hour
   * goes down exactly when the raw minute fell while the normalised minute rose, up
   * exactly when the raw minute rose while the normalised minute fell, and otherwise
   * stays `rawHour % 24`.
   */
  lemma SpinnerCarryDirection(rawHour: int, prevRawMinute: int, rawMinute: int)
    requires Abs(rawMinute - prevRawMinute) < 30
    ensures var h := SpinnerHour(rawHour, prevRawMinute, rawMinute);
      && (h == (rawHour - 1) % 24 <==> rawMinute < prevRawMinute && rawMinute % 60 > prevRawMinute % 60)
      && (h == (rawHour + 1) % 24 <==> rawMinute > prevRawMinute && rawMinute % 60 < prevRawMinute % 60)
      && (h == rawHour % 24 <==> rawMinute / 60 == prevRawMinute / 60)
  {
    SpinnerCarriesCrossedHours(rawHour, prevRawMinute, rawMinute);
  }

  /**
   * The hour after the drag rule. `handMinute` is the minute the hand showed before the
   * drag and `dragMinute` the minute under the cursor, both floored into 0..59. A jump
   * of more than 30 minutes is read as passing the 12 mark: falling from high to low
   * adds an hour, rising from low to high takes one off.
   */
  function DragHour(hour: int, handMinute: int, dragMinute: int): (h: int)
    requires 0 <= hour < 24
    requires 0 <= handMinute < 60 && 0 <= dragMinute < 60
    ensures 0 <= h < 24
  {
    if handMinute != dragMinute && Abs(dragMinute - handMinute) > 30 then
      var down := if dragMinute > handMinute then (hour - 1) % 24 else hour;
      if dragMinute < handMinute then (down + 1) % 24 else down
    else
      hour
  }

  /** The drag rule in both directions. */
  lemma DragCarryDirection(hour: int, handMinute: int, dragMinute: int)
    requires 0 <= hour < 24
    requires 0 <= handMinute < 60 && 0 <= dragMinute < 60
    ensures var h := DragHour(hour, handMinute, dragMinute);
      && (h == (hour + 1) % 24 <==> handMinute - dragMinute > 30)
      && (h == (hour - 1) % 24 <==> dragMinute - handMinute > 30)
      && (h == hour <==> Abs(dragMinute - handMinute) <= 30)
  {
  }

  /**
   * The signed move of the minute hand from `from` to `to`, taken the short way round;
   * exactly half a turn counts in the direction of the plain difference.
   */
  function HandMove(from: int, to: int): (d: int)
    requires 0 <= from < 60 && 0 <= to < 60
    ensures -30 <= d <= 30
    ensures (d - (to - from)) % 60 == 0
    ensures Abs(to - from) <= 30 ==> d == to - from
  {
    if to - from > 30 then to - from - 60
    else if from - to > 30 then to - from + 60
    else to - from
  }

  /**
   * A drag moves the clock exactly as far as the hand moved the short way round, so the
   * clock never moves by more than 30 minutes in one frame.
   */
  lemma DragMovesClockShortWay(hour: int, handMinute: int, dragMinute: int)
    requires 0 <= hour < 24
    requires 0 <= handMinute < 60 && 0 <= dragMinute < 60
    ensures Forward(ClockMinutes(hour, handMinute),
                    ClockMinutes(DragHour(hour, handMinute, dragMinute), dragMinute))
         == HandMove(handMinute, dragMinute) % 1440
  {
    var h := DragHour(hour, handMinute, dragMinute);
    var move := HandMove(handMinute, dragMinute);
    // the clock moves by `(h - hour) * 60 + dragMinute - handMinute`, which is `move`
    // once a wrap of the hour past midnight is counted as a whole day
    if dragMinute - handMinute > 30 {
      assert move == dragMinute - handMinute - 60;
      if hour == 0 {
        assert h == 23;
        assert ClockMinutes(h, dragMinute) - ClockMinutes(hour, handMinute) == move + 1440;
      } else {
        assert h == hour - 1;
        assert ClockMinutes(h, dragMinute) - ClockMinutes(hour, handMinute) == move;
      }
    } else if handMinute - dragMinute > 30 {
      assert move == dragMinute - handMinute + 60;
      if hour == 23 {
        assert h == 0;
        assert ClockMinutes(h, dragMinute) - ClockMinutes(hour, handMinute) == move - 1440;
      } else {
        assert h == hour + 1;
        assert ClockMinutes(h, dragMinute) - ClockMinutes(hour, handMinute) == move;
      }
    } else {
      assert h == hour && move == dragMinute - handMinute;
    }
  }
}
