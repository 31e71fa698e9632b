/**
 Maintenance windows (api/system_update.go and api/weekday.go): when a window is active and
 how long until it becomes active.

 `ActiveAt` is a simple specification: a window is a closed interval on a clock that goes
 around once a day or once a week. `TimeUntilActiveReference` computes with offsets in
 minutes since Sunday 00:00, as the source does, and is proved against it.
 */
module MaintenanceWindow {

  datatype Weekday = NONE | Sunday | Monday | Tuesday | Wednesday | Thursday | Friday | Saturday | Other(name: string)

  function ToWeekday(w: Weekday): (d: int)
    ensures -1 <= d <= 6
  {
    match w
    case Sunday => 0
    case Monday => 1
    case Tuesday => 2
    case Wednesday => 3
    case Thursday => 4
    case Friday => 5
    case Saturday => 6
    case _ => -1
  }

  datatype Window = Window(
    startDay: Weekday, startHour: int, startMinute: int,
    endDay: Weekday, endHour: int, endMinute: int)

  /** A reference time, as far as the window looks at it. */
  datatype Time = Time(weekday: int, hour: int, minute: int)

  predicate OnClock(hour: int, minute: int) {
    0 <= hour < 24 && 0 <= minute < 60
  }

  predicate RealTime(t: Time) {
    0 <= t.weekday < 7 && OnClock(t.hour, t.minute)
  }

  function StartOfDay(w: Window): (m: int) { w.startHour * 60 + w.startMinute }

  function EndOfDay(w: Window): (m: int) { w.endHour * 60 + w.endMinute }

  /** Both days or neither; a window on a single day does not end before it starts. */
  predicate ValidDays(w: Window) {
    && (w.startDay == NONE <==> w.endDay == NONE)
    && (w.startDay != NONE && w.startDay == w.endDay ==> StartOfDay(w) <= EndOfDay(w))
  }

  /** What the window arithmetic relies on beyond `Validate`: times on a 24-hour clock and day
      names that are names of days. */
  predicate Sensible(w: Window) {
    && ValidDays(w)
    && OnClock(w.startHour, w.startMinute) && OnClock(w.endHour, w.endMinute)
    && !w.startDay.Other? && !w.endDay.Other?
  }

  datatype Frequency = Never | Unparsable | Every(nanoseconds: int)

  /** The configuration check: true when it returns no error. */
  method Validate(frequency: Frequency, windows: seq<Window>) returns (ok: bool)
    ensures ok <==> !frequency.Unparsable? && (frequency.Every? ==> frequency.nanoseconds >= 0)
                    && forall i :: 0 <= i < |windows| ==> ValidDays(windows[i])
  {
    if frequency != Never {
      if frequency.Unparsable? { return false; }
      if frequency.nanoseconds < 0 { return false; }
    }
    for i := 0 to |windows|
      invariant forall j :: 0 <= j < i ==> ValidDays(windows[j])
    {
      var mw := windows[i];
      if mw.startDay != NONE && mw.startDay == mw.endDay {
        if mw.endHour * 60 + mw.endMinute < mw.startHour * 60 + mw.startMinute { return false; }
      }
      if (mw.startDay == NONE && mw.endDay != NONE) || (mw.startDay != NONE && mw.endDay == NONE) { return false; }
    }
    return true;
  }

  // ----- the specification

  /** The closed interval from `lo` to `hi` on a clock, going around when it has to. */
  predicate Between(lo: int, x: int, hi: int) {
    if lo <= hi then lo <= x <= hi else lo <= x || x <= hi
  }

  /** The same interval at minute `p`, on a clock that goes around every `n` minutes. */
  predicate OnAt(lo: int, hi: int, n: int, p: int)
    requires n > 0
  {
    Between(lo, p % n, hi)
  }

  /** Whether the window is active `p` minutes after a Sunday midnight. */
  predicate ActiveAt(w: Window, p: int) {
    if w.startDay == NONE then OnAt(StartOfDay(w), EndOfDay(w), 1440, p)
    else OnAt(ToWeekday(w.startDay) * 1440 + StartOfDay(w), ToWeekday(w.endDay) * 1440 + EndOfDay(w), 10080, p)
  }

  function MinuteOfDay(t: Time): (m: int) { t.hour * 60 + t.minute }

  function Position(t: Time): (p: int) {
    t.weekday * 1440 + MinuteOfDay(t)
  }

  /** `d` is how long it is from `t` until the window is first active. */
  predicate FirstActive(w: Window, t: Time, d: int) {
    && d >= 0
    && ActiveAt(w, Position(t) + d)
    && forall q :: Position(t) <= q < Position(t) + d ==> !ActiveAt(w, q)
  }

  predicate FirstOn(lo: int, hi: int, n: int, p: int, d: int)
    requires n > 0
  {
    && d >= 0
    && OnAt(lo, hi, n, p + d)
    && forall q :: p <= q < p + d ==> !OnAt(lo, hi, n, q)
  }

  /** A window that runs over the end of the week, on its last day, after it has ended. */
  predicate PastWrappedEnd(w: Window, t: Time) {
    && ToWeekday(w.startDay) > ToWeekday(w.endDay) == t.weekday
    && MinuteOfDay(t) > EndOfDay(w)
  }

  // ----- the computation

  /** The result in minutes. Outside the wrapped-end case it is the exact wait; in it, it is
      short by the days between the two. */
  method TimeUntilActiveReference(w: Window, t: Time) returns (minutes: int)
    requires Sensible(w) && RealTime(t)
    ensures minutes == Wait(w, t) <==> !PastWrappedEnd(w, t)
    ensures PastWrappedEnd(w, t) ==> minutes == StartOfDay(w) - MinuteOfDay(t)
    ensures PastWrappedEnd(w, t) ==> minutes == Wait(w, t) - (ToWeekday(w.startDay) - ToWeekday(w.endDay)) * 1440
  {
    DayNumbers(w.startDay, w.endDay);
    minutes := UntilActive(ToWeekday(w.startDay), w.startHour * 60 + w.startMinute,
                           ToWeekday(w.endDay), w.endHour * 60 + w.endMinute,
                           t.weekday, t.hour * 60 + t.minute);
  }

  /** The offsets of the source, with days as numbers (-1 for none) and times of day in minutes. */
  method UntilActive(startDay: int, start: int, endDay: int, end: int, weekday: int, now: int) returns (minutes: int)
    requires (startDay == endDay == -1) || (0 <= startDay < 7 && 0 <= endDay < 7)
    requires 0 <= start < 1440 && 0 <= end < 1440 && 0 <= weekday < 7 && 0 <= now < 1440
    requires startDay == endDay != -1 ==> start <= end
    ensures startDay == -1 ==> minutes == ClockWait(start, now, end, 1440)
    ensures startDay != -1 && !(startDay > endDay == weekday && now > end) ==>
      minutes == ClockWait(startDay * 1440 + start, weekday * 1440 + now, endDay * 1440 + end, 10080)
    ensures startDay > endDay == weekday && now > end ==> minutes == start - now
  {
    var startOffset, endOffset := 0, 0;
    if startDay == -1 && endDay == -1 {
      startOffset := startOffset + weekday * 24 * 60;
      endOffset := endOffset + weekday * 24 * 60;
      if end < start {
        if now < start {
          startOffset := startOffset - 24 * 60;
        } else {
          endOffset := endOffset + 24 * 60;
        }
      }
    } else if startDay == endDay {
      startOffset := startOffset + startDay * 24 * 60;
      endOffset := endOffset + startDay * 24 * 60;
    } else {
      if startDay < endDay {
        startOffset := startOffset + startDay * 24 * 60;
        endOffset := endOffset + endDay * 24 * 60;
      } else {
        startOffset := startOffset + startDay * 24 * 60;
        endOffset := endOffset + (endDay + 7) * 24 * 60;
      }
    }
    startOffset := startOffset + start;
    endOffset := endOffset + end;
    var currentPosition := weekday * 24 * 60 + now;
    if endOffset >= 7 * 24 * 60 && weekday <= endDay {
      currentPosition := currentPosition + 7 * 24 * 60;
    }
    if startOffset <= currentPosition && currentPosition <= endOffset {
      return 0;
    }
    if currentPosition < startOffset {
      return startOffset - currentPosition;
    }
    if startDay == -1 && endDay == -1 {
      return startOffset - currentPosition + 24 * 60;
    }
    var dayDiff := endDay - startDay;
    if dayDiff > 0 {
      return startOffset - currentPosition + 7 * 24 * 60;
    }
    return startOffset - currentPosition + (dayDiff + 7) * 24 * 60;
  }

  lemma {:induction false} DayNumbers(a: Weekday, b: Weekday)
    requires !a.Other? && !b.Other?
    ensures a == b <==> ToWeekday(a) == ToWeekday(b)
    ensures a == NONE <==> ToWeekday(a) == -1
    ensures b == NONE <==> ToWeekday(b) == -1
  {
  }

  /** The answer is right except at one minute: past the wrapped end, at the start's time of
      day, the wait comes out as zero. */
  method IsActive(w: Window, t: Time) returns (active: bool)
    requires Sensible(w) && RealTime(t)
    ensures active <==> ActiveAt(w, Position(t)) || (PastWrappedEnd(w, t) && MinuteOfDay(t) == StartOfDay(w))
  {
    ZeroWaitIsActive(w, t);
    var minutes := TimeUntilActiveReference(w, t);
    active := minutes == 0;
  }

  lemma {:induction false} ZeroWaitIsActive(w: Window, t: Time)
    requires Sensible(w) && RealTime(t)
    ensures Wait(w, t) == 0 <==> ActiveAt(w, Position(t))
    ensures PastWrappedEnd(w, t) ==> Wait(w, t) > 0
  {
    WaitIsFirst(w, t);
    FirstNow(w, t, Wait(w, t));
    if PastWrappedEnd(w, t) { WrappedWaitIsPositive(ToWeekday(w.startDay), StartOfDay(w), t.weekday, MinuteOfDay(t), EndOfDay(w)); }
  }

  lemma {:induction false} FirstNow(w: Window, t: Time, d: int)
    requires FirstActive(w, t, d)
    ensures d == 0 <==> ActiveAt(w, Position(t))
  {
    var p := Position(t);
    if d == 0 { assert ActiveAt(w, p + d); } else { assert !ActiveAt(w, p); }
  }

  lemma {:induction false} WrappedWaitIsPositive(startDay: int, start: int, day: int, now: int, end: int)
    requires day < startDay < 7 && 0 <= day && 0 <= start && now < 1440 && end < now
    ensures ClockWait(startDay * 1440 + start, day * 1440 + now, day * 1440 + end, 10080) > 0
  {
  }

  // ----- the wait is the first active minute

  /** The wait from `x` to the interval on a clock of `n` minutes. */
  function ClockWait(lo: int, x: int, hi: int, n: int): (d: int) {
    if Between(lo, x, hi) then 0 else if x < lo then lo - x else lo - x + n
  }

  function Wait(w: Window, t: Time): (d: int) {
    if w.startDay == NONE then ClockWait(StartOfDay(w), MinuteOfDay(t), EndOfDay(w), 1440)
    else ClockWait(ToWeekday(w.startDay) * 1440 + StartOfDay(w), Position(t),
                   ToWeekday(w.endDay) * 1440 + EndOfDay(w), 10080)
  }

  lemma {:induction false} ClockWaitIsFirst(lo: int, hi: int, n: int, p: int)
    requires n > 0 && 0 <= lo < n && 0 <= hi < n
    ensures FirstOn(lo, hi, n, p, ClockWait(lo, p % n, hi, n))
  {
    var x := p % n;
    var base := p - x;
    assert base % n == 0 by { RemainderIs(base, n, p / n, 0); }
    var d := ClockWait(lo, x, hi, n);
    AroundClock(base, x + d, n);
    forall q | p <= q < p + d ensures !OnAt(lo, hi, n, q) {
      AroundClock(base, q - base, n);
    }
  }

  lemma {:induction false} AroundClock(base: int, y: int, n: int)
    requires n > 0 && base % n == 0 && 0 <= y < 2 * n
    ensures (base + y) % n == if y < n then y else y - n
  {
    var q := base / n;
    assert base == q * n;
    if y < n {
      RemainderIs(base + y, n, q, y);
    } else {
      assert (q + 1) * n == q * n + n;
      RemainderIs(base + y, n, q + 1, y - n);
    }
  }

  lemma {:induction false} RemainderIs(a: int, n: int, k: int, r: int)
    requires n > 0 && 0 <= r < n && a == k * n + r
    ensures a % n == r
  {
    var z := a / n - k;
    assert z * n == (a / n) * n - k * n == r - a % n;
    MultipleTooBig(z, n);
  }

  lemma {:induction false} MultipleTooBig(z: int, n: int)
    requires n > 0
    ensures z > 0 ==> z * n >= n
    ensures z < 0 ==> z * n <= -n
  {
  }

  /** The wait leads to the first minute at which the window is active. */
  lemma {:induction false} WaitIsFirst(w: Window, t: Time)
    requires Sensible(w) && RealTime(t)
    ensures FirstActive(w, t, Wait(w, t))
  {
    DayNumbers(w.startDay, w.endDay);
    var p, d := Position(t), Wait(w, t);
    if w.startDay == NONE {
      var lo, hi := StartOfDay(w), EndOfDay(w);
      DailyFirst(lo, hi, t.weekday, MinuteOfDay(t));
      assert FirstOn(lo, hi, 1440, p, d);
      forall q | p <= q < p + d ensures !ActiveAt(w, q) { assert !OnAt(lo, hi, 1440, q); }
    } else {
      var lo, hi := ToWeekday(w.startDay) * 1440 + StartOfDay(w), ToWeekday(w.endDay) * 1440 + EndOfDay(w);
      WeeklyFirst(lo, hi, p);
      assert FirstOn(lo, hi, 10080, p, d);
      forall q | p <= q < p + d ensures !ActiveAt(w, q) { assert !OnAt(lo, hi, 10080, q); }
    }
  }

  lemma {:induction false} DailyFirst(lo: int, hi: int, day: int, x: int)
    requires 0 <= lo < 1440 && 0 <= hi < 1440 && 0 <= x < 1440
    ensures FirstOn(lo, hi, 1440, day * 1440 + x, ClockWait(lo, x, hi, 1440))
  {
    RemainderIs(day * 1440 + x, 1440, day, x);
    ClockWaitIsFirst(lo, hi, 1440, day * 1440 + x);
  }

  lemma {:induction false} WeeklyFirst(lo: int, hi: int, x: int)
    requires 0 <= lo < 10080 && 0 <= hi < 10080 && 0 <= x < 10080
    ensures FirstOn(lo, hi, 10080, x, ClockWait(lo, x, hi, 10080))
  {
    RemainderIs(x, 10080, 0, x);
    ClockWaitIsFirst(lo, hi, 10080, x);
  }

  /** One minute later, across midnight and the end of the week. */
  function NextMinute(t: Time): (r: Time) {
    if t.minute < 59 then t.(minute := t.minute + 1)
    else if t.hour < 23 then Time(t.weekday, t.hour + 1, 0)
    else Time(if t.weekday == 6 then 0 else t.weekday + 1, 0, 0)
  }

  function Following(x: int, n: int): (y: int) {
    if x == n - 1 then 0 else x + 1
  }

  lemma {:induction false} NextPosition(t: Time)
    requires RealTime(t)
    ensures RealTime(NextMinute(t))
    ensures MinuteOfDay(NextMinute(t)) == Following(MinuteOfDay(t), 1440)
    ensures Position(NextMinute(t)) == Following(Position(t), 10080)
  {
  }

  lemma {:induction false} ClockCountsDown(lo: int, x: int, hi: int, n: int)
    requires 0 <= lo < n && 0 <= hi < n && 0 <= x < n && ClockWait(lo, x, hi, n) > 0
    ensures ClockWait(lo, Following(x, n), hi, n) == ClockWait(lo, x, hi, n) - 1
  {
  }

  lemma {:induction false} WeekBounds(day: int, m: int)
    requires 0 <= day < 7 && 0 <= m < 1440
    ensures 0 <= day * 1440 + m < 10080
  {
  }

  lemma {:induction false} DayBounds(w: Window)
    requires Sensible(w)
    ensures 0 <= StartOfDay(w) < 1440 && 0 <= EndOfDay(w) < 1440
    ensures w.startDay != NONE ==> 0 <= ToWeekday(w.startDay) < 7 && 0 <= ToWeekday(w.endDay) < 7
  {
  }

  // The clock of a window: its length in minutes, its interval, and where a time is on it.

  function Cycle(w: Window): (n: int) {
    if w.startDay == NONE then 1440 else 10080
  }

  function Lo(w: Window): (m: int) {
    if w.startDay == NONE then StartOfDay(w) else ToWeekday(w.startDay) * 1440 + StartOfDay(w)
  }

  function Hi(w: Window): (m: int) {
    if w.startDay == NONE then EndOfDay(w) else ToWeekday(w.endDay) * 1440 + EndOfDay(w)
  }

  function At(w: Window, t: Time): (m: int) {
    if w.startDay == NONE then MinuteOfDay(t) else Position(t)
  }

  lemma {:induction false} WaitOnClock(w: Window, t: Time)
    requires Sensible(w) && RealTime(t)
    ensures Wait(w, t) == ClockWait(Lo(w), At(w, t), Hi(w), Cycle(w))
    ensures 0 <= Lo(w) < Cycle(w) && 0 <= Hi(w) < Cycle(w) && 0 <= At(w, t) < Cycle(w)
  {
    DayBounds(w);
    if w.startDay != NONE {
      WeekBounds(ToWeekday(w.startDay), StartOfDay(w));
      WeekBounds(ToWeekday(w.endDay), EndOfDay(w));
      WeekBounds(t.weekday, MinuteOfDay(t));
    }
  }

  lemma {:induction false} NextOnClock(w: Window, t: Time)
    requires RealTime(t)
    ensures RealTime(NextMinute(t)) && At(w, NextMinute(t)) == Following(At(w, t), Cycle(w))
  {
    NextPosition(t);
    var u := NextMinute(t);
    assert At(w, u) == if w.startDay == NONE then MinuteOfDay(u) else Position(u);
  }

  /** While the window is not active, the wait counts down minute by minute. */
  lemma {:induction false} WaitCountsDown(w: Window, t: Time)
    requires Sensible(w) && RealTime(t) && Wait(w, t) > 0
    ensures RealTime(NextMinute(t)) && Wait(w, NextMinute(t)) == Wait(w, t) - 1
  {
    NextOnClock(w, t);
    WaitOnClock(w, t);
    WaitOnClock(w, NextMinute(t));
    ClockCountsDown(Lo(w), At(w, t), Hi(w), Cycle(w));
  }

  /** The failing case is a real one: a Saturday-to-Sunday window on a Sunday afternoon. */
  lemma {:induction false} WrappedEndIsWrong()
    ensures var w := Window(Saturday, 23, 0, Sunday, 1, 0); var t := Time(0, 13, 0);
      && Sensible(w) && RealTime(t) && PastWrappedEnd(w, t)
      && Wait(w, t) == 6 * 1440 + 10 * 60
      && StartOfDay(w) - MinuteOfDay(t) == 10 * 60
  {
  }

  /** The days, as the reference time counts them: Sunday is day 0. */
  predicate Numbered(d: Weekday, i: int) {
    || (d == Sunday && i == 0) || (d == Monday && i == 1) || (d == Tuesday && i == 2) || (d == Wednesday && i == 3)
    || (d == Thursday && i == 4) || (d == Friday && i == 5) || (d == Saturday && i == 6)
  }

  lemma {:induction false} DayRange(i: int, day: int, m: int)
    requires 0 <= m < 1440
    ensures i * 1440 <= day * 1440 + m <= i * 1440 + 1439 <==> day == i
  {
  }

  lemma {:induction false} OnThisWeek(lo: int, hi: int, p: int)
    requires 0 <= p < 10080 && lo <= hi
    ensures OnAt(lo, hi, 10080, p) <==> lo <= p <= hi
  {
    RemainderIs(p, 10080, 0, p);
  }

  lemma {:induction false} WholeDayIs(w: Window, i: int, p: int)
    requires w.startDay == w.endDay != NONE && ToWeekday(w.startDay) == i && StartOfDay(w) == 0 && EndOfDay(w) == 1439
    requires 0 <= p < 10080
    ensures ActiveAt(w, p) <==> i * 1440 <= p <= i * 1440 + 1439
  {
    OnThisWeek(i * 1440, i * 1440 + 1439, p);
  }

  /** A window over one whole day is active exactly on the days the reference time gives that number. */
  lemma {:induction false} WholeDay(w: Window, i: int, day: int, m: int)
    requires Numbered(w.startDay, i) && w.endDay == w.startDay && StartOfDay(w) == 0 && EndOfDay(w) == 1439
    requires 0 <= day < 7 && 0 <= m < 1440
    ensures ActiveAt(w, day * 1440 + m) <==> day == i
  {
    var p := day * 1440 + m;
    WeekBounds(day, m);
    DayRange(i, day, m);
    WholeDayIs(w, i, p);
  }
}
