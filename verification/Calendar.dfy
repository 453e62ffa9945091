/** Whole-minute time: instants, weekdays, half-open ranges and the slot grid.

    An instant is a number of minutes; local minute 0 is the midnight that opens a Monday, as in
    Python's proleptic calendar, whose day 1 is a Monday. */
module Calendar {

  datatype Result<+T, +E> = Ok(value: T) | Err(error: E)

  datatype Option<+T> = None | Some(value: T)

  datatype Weekday = Monday | Tuesday | Wednesday | Thursday | Friday | Saturday | Sunday

  const ALL_WEEKDAYS: seq<Weekday> :=
    [Monday, Tuesday, Wednesday, Thursday, Friday, Saturday, Sunday]

  function WeekdayOf(t: int): Weekday {
    ALL_WEEKDAYS[(t / 1440) % 7]
  }

  function TimeOfDay(t: int): int {
    t % 1440
  }

  function DayIndex(wd: Weekday): (i: int)
    ensures 0 <= i < |ALL_WEEKDAYS| && ALL_WEEKDAYS[i] == wd
  {
    match wd
    case Monday => 0
    case Tuesday => 1
    case Wednesday => 2
    case Thursday => 3
    case Friday => 4
    case Saturday => 5
    case Sunday => 6
  }

  // The days of the week by name, in order.
  function DayAfter(wd: Weekday): Weekday {
    match wd
    case Monday => Tuesday
    case Tuesday => Wednesday
    case Wednesday => Thursday
    case Thursday => Friday
    case Friday => Saturday
    case Saturday => Sunday
    case Sunday => Monday
  }

  // The first day is a Monday and its minutes count from midnight; a day later it is the next weekday
  // at the same time of day. This fixes weekday and time of day of every minute, past and future.
  lemma ClockReads(t: int)
    ensures 0 <= t < 1440 ==> WeekdayOf(t) == Monday && TimeOfDay(t) == t
    ensures WeekdayOf(t + 1440) == DayAfter(WeekdayOf(t))
    ensures TimeOfDay(t + 1440) == TimeOfDay(t)
  {
    assert (t + 1440) / 1440 == t / 1440 + 1;
    var d := t / 1440;
    assert (d + 1) % 7 == if d % 7 == 6 then 0 else d % 7 + 1;
  }

  // ---------- half-open ranges ----------

  datatype RawRange = DateTimeRange(start: int, end: int)

  type DateTimeRange = r: RawRange | r.start < r.end witness DateTimeRange(0, 1)

  predicate Overlaps(a: DateTimeRange, b: DateTimeRange) {
    a.start < b.end && b.start < a.end
  }

  predicate Covers(a: DateTimeRange, t: int) {
    a.start <= t < a.end
  }

  ghost predicate ShareAMinute(a: DateTimeRange, b: DateTimeRange) {
    exists t :: Covers(a, t) && Covers(b, t)
  }

  // The two comparisons say exactly that some minute lies in both ranges; touching is not overlap.
  lemma OverlapIsASharedMinute(a: DateTimeRange, b: DateTimeRange)
    ensures Overlaps(a, b) <==> ShareAMinute(a, b)
  {
    if Overlaps(a, b) {
      var t := if a.start < b.start then b.start else a.start;
      assert Covers(a, t) && Covers(b, t);
    }
  }

  // ---------- the slot grid ----------

  /** The slot lengths a resource may have. Each divides a day. */
  predicate AllowedSlot(s: int) {
    s == 30 || s == 45 || s == 60 || s == 90 || s == 120
  }

  predicate OnGrid(s: int, t: int)
    requires s != 0
  {
    t % s == 0
  }

  predicate IsMultiple(s: int, k: int, t: int) {
    t == s * k
  }

  // Being on the grid is being a whole number of slots from its origin.
  lemma OnGridMeansMultiple(s: int, t: int)
    requires s > 0
    ensures OnGrid(s, t) <==> exists k :: IsMultiple(s, k, t)
  {
    if OnGrid(s, t) {
      assert IsMultiple(s, t / s, t);
    }
    if k :| IsMultiple(s, k, t) {
      SameRemainder(s, 0, k);
    }
  }

  // The start of the grid cell that holds t.
  function CellOf(s: int, t: int): int
    requires s != 0
  {
    t - t % s
  }

  lemma SameRemainder(s: int, r: int, m: int)
    requires s > 0
    ensures (r + s * m) % s == r % s
  {
    var x := r + s * m;
    var k := x / s - r / s - m;
    assert s * k == r % s - x % s by {
      assert x == s * (x / s) + x % s && r == s * (r / s) + r % s;
      assert s * k == s * (x / s) - s * (r / s) - s * m;
    }
    assert k >= 1 ==> s * k >= s;
    assert k <= -1 ==> s * k <= -s;
  }

  // Because an allowed slot divides 1440, the grid of each day continues the grid of the day before.
  lemma GridRestartsAtMidnight(s: int, t: int)
    requires AllowedSlot(s)
    ensures OnGrid(s, TimeOfDay(t)) <==> OnGrid(s, t)
  {
    var n := if s == 30 then 48 else if s == 45 then 32 else if s == 60 then 24 else if s == 90 then 16 else 12;
    var q := t / 1440;
    assert t == TimeOfDay(t) + 1440 * q;
    assert s * (n * q) == 1440 * q;
    SameRemainder(s, TimeOfDay(t), n * q);
  }

  // Distinct grid points are at least one slot apart, and steps of one slot stay on the grid.
  lemma GridSteps(s: int, x: int, y: int)
    requires s > 0 && OnGrid(s, x)
    ensures OnGrid(s, x + s)
    ensures OnGrid(s, y) <==> (y - x) % s == 0
    ensures OnGrid(s, y) && x < y ==> x + s <= y
  {
    assert x == s * (x / s);
    SameRemainder(s, x, 1);
    assert y - x == y + s * (-(x / s));
    SameRemainder(s, y, -(x / s));
    if OnGrid(s, y) && x < y {
      assert y - x == s * ((y - x) / s);
      assert (y - x) / s >= 1;
      assert s * ((y - x) / s) >= s;
    }
  }

  lemma CellHolds(s: int, t: int)
    requires s > 0
    ensures OnGrid(s, CellOf(s, t)) && CellOf(s, t) <= t < CellOf(s, t) + s
  {
    assert CellOf(s, t) == 0 + s * (t / s);
    SameRemainder(s, 0, t / s);
  }

  // A cell never straddles midnight: all its minutes share the weekday and differ only in time of day.
  lemma CellStaysInDay(s: int, c: int, t: int)
    requires AllowedSlot(s) && OnGrid(s, c) && c <= t < c + s
    ensures WeekdayOf(t) == WeekdayOf(c)
    ensures TimeOfDay(t) == TimeOfDay(c) + (t - c)
    ensures TimeOfDay(c) + s <= 1440
  {
    GridRestartsAtMidnight(s, c);
    GridRestartsAtMidnight(s, 1440);
    GridSteps(s, TimeOfDay(c), 1440);
    assert TimeOfDay(c) + (t - c) < 1440;
    assert t / 1440 == c / 1440;
  }
}
