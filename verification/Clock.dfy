/**
 Moving the time picker ahead with its arrow buttons. Each click moves one field
 by one; the picker is not asked to carry into the next field.
 */
module Clock {
  datatype Time = Time(hours: int, minutes: int, seconds: int)

  datatype Column = Hours | Minutes | Seconds

  predicate Valid(t: Time) {
    0 <= t.hours < 24 && 0 <= t.minutes < 60 && 0 <= t.seconds < 60
  }

  function InSeconds(t: Time): int {
    3600 * t.hours + 60 * t.minutes + t.seconds
  }

  function FieldOf(t: Time, column: Column): int {
    match column
    case Hours => t.hours
    case Minutes => t.minutes
    case Seconds => t.seconds
  }

  function WithField(t: Time, column: Column, value: int): Time {
    match column
    case Hours => t.(hours := value)
    case Minutes => t.(minutes := value)
    case Seconds => t.(seconds := value)
  }

  /** The remainder of JavaScript, which has the sign of the dividend. */
  function Remainder(a: int, n: int): int
    requires n > 0
  {
    if a >= 0 then a % n else -((-a) % n)
  }

  function Distance(a: int, b: int): nat {
    if a < b then b - a else a - b
  }

  // ----- The new time -----

  function MinutesAhead(t: Time, shift: int): int {
    t.minutes + (t.seconds + shift) / 60
  }

  function HoursAhead(t: Time, shift: int): int {
    t.hours + MinutesAhead(t, shift) / 60
  }

  function NewTime(t: Time, shift: int): Time {
    Time(Remainder(HoursAhead(t, shift) + 24, 24),
         Remainder(MinutesAhead(t, shift) + 60, 60),
         Remainder(t.seconds + shift + 60, 60))
  }

  /** The dividend is not negative, or it leaves no remainder. */
  predicate WrapsOnce(a: int, n: int)
    requires n > 0
  {
    a + n >= 0 || a % n == 0
  }

  predicate Reachable(t: Time, shift: int) {
    && WrapsOnce(t.seconds + shift, 60)
    && WrapsOnce(MinutesAhead(t, shift), 60)
    && WrapsOnce(HoursAhead(t, shift), 24)
  }

  lemma RemainderIsModuloIff(a: int, n: int)
    requires n > 0
    ensures 0 <= Remainder(a + n, n) < n <==> WrapsOnce(a, n)
    ensures WrapsOnce(a, n) ==> Remainder(a + n, n) == a % n
  {
    var q, r := a / n, a % n;
    assert a == n * q + r;
    if a + n >= 0 {
      SameRemainder(a + n, n, q + 1, r);
    } else if r == 0 {
      assert -(a + n) == n * (-q - 1);
      SameRemainder(-(a + n), n, -q - 1, 0);
    } else {
      assert -(a + n) == n * (-q - 2) + (n - r) by {
        assert n * (-q - 2) == -(n * q) - 2 * n;
      }
      SameRemainder(-(a + n), n, -q - 2, n - r);
    }
  }

  lemma SameRemainder(a: int, n: int, q: int, r: int)
    requires n > 0 && 0 <= r < n && a == n * q + r
    ensures a % n == r
  {
    var k := q - a / n;
    assert n * k == a % n - r by {
      assert n * k == n * q - n * (a / n);
    }
    SmallMultiple(n, k);
  }

  lemma SmallMultiple(n: int, k: int)
    requires -n < n * k < n
    ensures k == 0
  {
    assert k >= 1 ==> n * k >= n;
    assert k <= -1 ==> n * k <= -n;
  }

  /** The new time with remainders that are never negative. */
  function WrappedTime(t: Time, shift: int): Time {
    Time(HoursAhead(t, shift) % 24, MinutesAhead(t, shift) % 60, (t.seconds + shift) % 60)
  }

  /** Carrying seconds into minutes and minutes into hours, and dropping days. */
  lemma Carries(t: Time, shift: int)
    ensures InSeconds(WrappedTime(t, shift)) == (InSeconds(t) + shift) % 86400
  {
    SameRemainder(InSeconds(t) + shift, 86400, HoursAhead(t, shift) / 24, InSeconds(WrappedTime(t, shift)));
  }

  lemma NewTimeIsValidIff(t: Time, shift: int)
    ensures Valid(NewTime(t, shift)) <==> Reachable(t, shift)
  {
    RemainderIsModuloIff(t.seconds + shift, 60);
    RemainderIsModuloIff(MinutesAhead(t, shift), 60);
    RemainderIsModuloIff(HoursAhead(t, shift), 24);
  }

  lemma ReachableIsWrapped(t: Time, shift: int)
    requires Reachable(t, shift)
    ensures NewTime(t, shift) == WrappedTime(t, shift)
  {
    RemainderIsModuloIff(t.seconds + shift, 60);
    RemainderIsModuloIff(MinutesAhead(t, shift), 60);
    RemainderIsModuloIff(HoursAhead(t, shift), 24);
  }

  /** The time set is valid, and then is the start plus the shift on a day's clock, exactly when each dividend wraps. */
  lemma NewTimeIsRightIff(t: Time, shift: int)
    ensures Valid(NewTime(t, shift)) <==> Reachable(t, shift)
    ensures Reachable(t, shift) ==> InSeconds(NewTime(t, shift)) == (InSeconds(t) + shift) % 86400
  {
    NewTimeIsValidIff(t, shift);
    if Reachable(t, shift) {
      ReachableIsWrapped(t, shift);
      Carries(t, shift);
    }
  }

  /** A shift ahead is always reached, and one back by up to a minute. */
  lemma AheadIsReachable(t: Time, shift: int)
    requires Valid(t) && shift >= -60
    ensures Reachable(t, shift)
  {
  }

  /** A minute and a second before midnight: the seconds field would have to show -1. */
  lemma BackOverAMinuteFails()
    ensures var t := Time(0, 0, 0); !Reachable(t, -61) && NewTime(t, -61).seconds == -1 && !Valid(NewTime(t, -61))
  {
  }

  // ----- Clicking -----

  predicate Among(a: int, x: int, b: int) {
    a <= x <= b || b <= x <= a
  }

  /** A time lies between two others, column by column. */
  predicate Between(a: Time, x: Time, b: Time) {
    Among(a.hours, x.hours, b.hours) && Among(a.minutes, x.minutes, b.minutes) && Among(a.seconds, x.seconds, b.seconds)
  }

  class TimePicker {
    var time: Time
    ghost var shown: seq<Time>

    constructor (start: Time)
      ensures time == start && shown == []
    {
      time := start;
      shown := [];
    }

    method Click(column: Column, up: bool)
      modifies this
      ensures time == WithField(old(time), column, FieldOf(old(time), column) + if up then 1 else -1)
      ensures shown == old(shown) + [time]
    {
      time := WithField(time, column, FieldOf(time, column) + if up then 1 else -1);
      shown := shown + [time];
    }

    method Increment(column: Column, count: int)
      modifies this
      ensures time == WithField(old(time), column, FieldOf(old(time), column) + count)
      ensures old(shown) <= shown && |shown| == |old(shown)| + Distance(0, count)
      ensures forall i :: |old(shown)| <= i < |shown| ==> Between(old(time), shown[i], time)
    {
      if count > 0 {
        for i := 0 to count
          invariant time == WithField(old(time), column, FieldOf(old(time), column) + i)
          invariant old(shown) <= shown && |shown| == |old(shown)| + i
          invariant forall j :: |old(shown)| <= j < |shown| ==> Between(old(time), shown[j], time)
        {
          Click(column, true);
        }
      } else if count < 0 {
        var i := 0;
        while i > count
          invariant count <= i <= 0
          invariant time == WithField(old(time), column, FieldOf(old(time), column) + i)
          invariant old(shown) <= shown && |shown| == |old(shown)| - i
          invariant forall j :: |old(shown)| <= j < |shown| ==> Between(old(time), shown[j], time)
        {
          Click(column, false);
          i := i - 1;
        }
      }
    }

    method MoveTimeAheadBySeconds(shift: int)
      modifies this
      ensures time == NewTime(old(time), shift)
      ensures old(shown) <= shown
      ensures |shown| - |old(shown)| ==
              Distance(old(time).hours, time.hours) + Distance(old(time).minutes, time.minutes)
              + Distance(old(time).seconds, time.seconds)
      ensures forall i :: |old(shown)| <= i < |shown| ==> Between(old(time), shown[i], time)
    {
      var totalSeconds := time.seconds + shift;
      var extraMinutes := totalSeconds / 60;
      var newSeconds := Remainder(totalSeconds + 60, 60);

      var totalMinutes := time.minutes + extraMinutes;
      var extraHours := totalMinutes / 60;
      var newMinutes := Remainder(totalMinutes + 60, 60);

      var newHours := Remainder(time.hours + extraHours + 24, 24);

      var currentMinutes, currentSeconds := time.minutes, time.seconds;
      Increment(Hours, newHours - time.hours);
      Increment(Minutes, newMinutes - currentMinutes);
      Increment(Seconds, newSeconds - currentSeconds);
    }
  }

  /** A reachable time is set by valid steps, in at most 23 + 59 + 59 clicks. */
  method MoveAhead(picker: TimePicker, shift: int)
    requires Valid(picker.time) && Reachable(picker.time, shift)
    modifies picker
    ensures Valid(picker.time)
    ensures InSeconds(picker.time) == (InSeconds(old(picker.time)) + shift) % 86400
    ensures |picker.shown| <= |old(picker.shown)| + 23 + 59 + 59
    ensures forall i :: |old(picker.shown)| <= i < |picker.shown| ==> Valid(picker.shown[i])
  {
    NewTimeIsRightIff(picker.time, shift);
    picker.MoveTimeAheadBySeconds(shift);
  }
}
