/**
 * The labels painted around the clock face. Tick `n` (0 <= n < 60) is drawn at the
 * angle `TAU * n / 60`, and angle 0 points at 3 o'clock with angles growing clockwise,
 * so tick `n` sits where a conventional face has minute `(n + 15) % 60`.
 */
module Dial {

  /** The hour label painted beside tick `n` (drawn only when `n % 5 == 0`). */
  function HourLabel(n: nat): (h: int)
    ensures 1 <= h <= 12
  {
    (n / 5 + 2) % 12 + 1
  }

  /** The minute label painted beside tick `n`. */
  function MinuteLabel(n: nat): (m: int)
    ensures 1 <= m <= 60
  {
    (n + 14) % 60 + 1
  }

  /** The minute of a conventional (12 at the top) face in the direction of tick `n`. */
  function FaceMinuteAt(n: nat): (m: int)
    ensures 0 <= m < 60
  {
    (n + 15) % 60
  }

  /**
   * The tick the minute hand points at when it shows minute `m`: the hand is drawn at
   * `TAU * m / 60 - TAU / 4`, a quarter turn (15 ticks) before tick `m`.
   */
  function MinuteHandTick(m: int): (n: nat)
    ensures n < 60
  {
    (m + 45) % 60
  }

  /**
   * The tick the hour hand points at on the full hour `h`: the hand is drawn at
   * `TAU * (h % 12) / 12 - TAU / 4`, five ticks per hour, 15 ticks back.
   */
  function HourHandTick(h: int): (n: nat)
    ensures n < 60 && n % 5 == 0
  {
    (5 * (h % 12) + 45) % 60
  }

  /** The minute label at a tick is that tick's face minute, with 60 written at the top. */
  lemma MinuteLabelIsFaceMinute(n: nat)
    requires n < 60
    ensures MinuteLabel(n) == if FaceMinuteAt(n) == 0 then 60 else FaceMinuteAt(n)
    ensures MinuteLabel(0) == 15 && MinuteLabel(45) == 60
  {
  }

  /** The hour label at an hour tick is that tick's face hour, with 12 written at the top. */
  lemma {:induction false} HourLabelIsFaceHour(n: nat)
    requires n < 60 && n % 5 == 0
    ensures HourLabel(n) == if FaceMinuteAt(n) == 0 then 12 else FaceMinuteAt(n) / 5
    ensures HourLabel(0) == 3 && HourLabel(45) == 12
  {
    var k := n / 5;
    assert n == 5 * k && k < 12;
    assert FaceMinuteAt(n) == (5 * k + 15) % 60;
    if k < 9 {
      assert FaceMinuteAt(n) == 5 * (k + 3);
    } else {
      assert FaceMinuteAt(n) == 5 * (k - 9);
    }
  }

  /** The minute hand showing minute `m` points at the label `m` (60 for minute 0). */
  lemma MinuteHandPointsAtItsLabel(m: int)
    requires 0 <= m < 60
    ensures MinuteLabel(MinuteHandTick(m)) == if m == 0 then 60 else m
  {
  }

  /** Every tick is the minute hand's tick for the minute its label names. */
  lemma MinuteLabelRoundTrip(n: nat)
    requires n < 60
    ensures MinuteHandTick(MinuteLabel(n)) == n
  {
  }

  /** On the full hour the hour hand points at the label of that hour (12 for 0 and 12). */
  lemma {:induction false} HourHandPointsAtItsLabel(h: int)
    ensures HourLabel(HourHandTick(h)) == if h % 12 == 0 then 12 else h % 12
  {
    var k := h % 12;
    var n := HourHandTick(h);
    if k < 3 {
      assert n == 5 * k + 45;
      assert n / 5 == k + 9;
    } else {
      assert n == 5 * k - 15;
      assert n / 5 == k - 3;
    }
  }

  /** The 60 minute labels, in tick order, name every minute 1..60 exactly once. */
  lemma MinuteLabelsCoverDial(minutes: seq<int>)
    requires |minutes| == 60 && forall n :: 0 <= n < 60 ==> minutes[n] == MinuteLabel(n)
    ensures forall m :: 1 <= m <= 60 ==> m in minutes
    ensures forall i, j :: 0 <= i < j < 60 ==> minutes[i] != minutes[j]
  {
    forall m | 1 <= m <= 60
      ensures m in minutes
    {
      MinuteHandPointsAtItsLabel(m % 60);
      assert minutes[MinuteHandTick(m % 60)] == m;
    }
    forall i, j | 0 <= i < j < 60
      ensures minutes[i] != minutes[j]
    {
      MinuteLabelRoundTrip(i);
      MinuteLabelRoundTrip(j);
    }
  }

  /** The 12 hour labels, one per hour tick in order, name every hour 1..12 exactly once. */
  lemma HourLabelsCoverDial(hours: seq<int>)
    requires |hours| == 12 && forall k :: 0 <= k < 12 ==> hours[k] == HourLabel(5 * k)
    ensures forall h :: 1 <= h <= 12 ==> h in hours
    ensures forall i, j :: 0 <= i < j < 12 ==> hours[i] != hours[j]
  {
    forall h | 1 <= h <= 12
      ensures h in hours
    {
      HourHandPointsAtItsLabel(h);
      assert hours[HourHandTick(h) / 5] == h;
    }
    forall i, j | 0 <= i < j < 12
      ensures hours[i] != hours[j]
    {
      HourLabelIsFaceHour(5 * i);
      HourLabelIsFaceHour(5 * j);
    }
  }

  /**
   * The texts the face loop paints: `hours[k]` is the hour label at tick `5 * k` and
   * `minutes[n]` the minute label at tick `n`. Every hour 1..12 and every minute 1..60
   * is painted exactly once.
   */
  method FaceLabels() returns (hours: seq<int>, minutes: seq<int>)
    ensures |hours| == 12 && |minutes| == 60
    ensures forall k :: 0 <= k < 12 ==> hours[k] == HourLabel(5 * k)
    ensures forall n :: 0 <= n < 60 ==> minutes[n] == MinuteLabel(n)
    ensures forall h :: 1 <= h <= 12 ==> h in hours
    ensures forall m :: 1 <= m <= 60 ==> m in minutes
    ensures forall i, j :: 0 <= i < j < 12 ==> hours[i] != hours[j]
    ensures forall i, j :: 0 <= i < j < 60 ==> minutes[i] != minutes[j]
  {
    hours, minutes := [], [];
    var n := 0;
    while n < 60
      invariant 0 <= n <= 60
      invariant |minutes| == n
      invariant |hours| == (n + 4) / 5
      invariant forall k :: 0 <= k < |hours| ==> hours[k] == HourLabel(5 * k)
      invariant forall i :: 0 <= i < n ==> minutes[i] == MinuteLabel(i)
    {
      if n % 5 == 0 {
        hours := hours + [HourLabel(n)];
      }
      minutes := minutes + [MinuteLabel(n)];
      n := n + 1;
    }
    MinuteLabelsCoverDial(minutes);
    HourLabelsCoverDial(hours);
  }
}
