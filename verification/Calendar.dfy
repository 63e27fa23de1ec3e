/**
 Reporting windows and weeks (timewindow/timewindow.go, utils/date.go), over the proleptic Gregorian calendar
 of ISO 8601, in zones of fixed offset. An instant is a number of nanoseconds; day 0 is 1 January of year 1,
 a Monday.
 */
module Calendar {
  import opened Wrappers

  const HOUR := 3_600_000_000_000
  const DAY := 24 * HOUR
  const WEEK := 7 * DAY

  // ---------------------------------------------------------------- months and days

  predicate Leap(y: int) {
    y % 4 == 0 && (y % 100 != 0 || y % 400 == 0)
  }

  /** Days before 1 January of year `y`. */
  function YearStart(y: int): (day: int) {
    365 * (y - 1) + (y - 1) / 4 - (y - 1) / 100 + (y - 1) / 400
  }

  lemma Ratchet(y: int, k: int)
    requires k > 1
    ensures y / k - (y - 1) / k == if y % k == 0 then 1 else 0
  {
    var q, r := y / k, y % k;
    assert y == q * k + r;
    if r > 0 {
      Quotient(y - 1, k, q, r - 1);
    } else {
      assert y - 1 == (q - 1) * k + (k - 1);
      Quotient(y - 1, k, q - 1, k - 1);
    }
  }

  lemma Quotient(x: int, k: int, q: int, r: int)
    requires k > 0 && x == q * k + r && 0 <= r < k
    ensures x / k == q && x % k == r
  {
    var d := x / k - q;
    assert d * k == r - x % k by {
      assert x == (x / k) * k + x % k;
    }
    if d >= 1 {
      Grow(d, k);
    } else if d <= -1 {
      Grow(-d, k);
    }
  }

  lemma Grow(d: int, k: int)
    requires d >= 1 && k > 0
    ensures d * k >= k
  {
  }

  lemma YearLength(y: int)
    ensures YearStart(y + 1) - YearStart(y) == if Leap(y) then 366 else 365
    ensures Leap(y) <==> y % 400 == 0 || (y % 4 == 0 && y % 100 != 0)
  {
    Ratchet(y, 4);
    Ratchet(y, 100);
    Ratchet(y, 400);
    Divides(y, 100, 4);
    Divides(y, 4, 25);
  }

  lemma Divides(y: int, k: int, j: int)
    requires k > 0 && j > 0
    ensures y % (k * j) == 0 ==> y % k == 0
  {
    var q := y / (k * j);
    if y % (k * j) == 0 {
      assert y == q * (k * j) == (q * j) * k;
      Quotient(y, k, q * j, 0);
    }
  }

  /** Days of the year before month `m`, counted from 0. */
  function DaysBefore(leap: bool, m: int): (n: int)
    requires 0 <= m <= 12
  {
    if m == 0 then 0 else DaysBefore(leap, m - 1) + Table(leap, m - 1)
  }

  /** The Gregorian table of month lengths. */
  function Table(leap: bool, m: int): (n: int)
    requires 0 <= m < 12
    ensures 28 <= n <= 31
  {
    if m == 1 then (if leap then 29 else 28)
    else if m == 3 || m == 5 || m == 8 || m == 10 then 30
    else 31
  }

  lemma WholeYear(leap: bool)
    ensures DaysBefore(leap, 12) == if leap then 366 else 365
  {
    assert DaysBefore(leap, 1) == 31;
    assert DaysBefore(leap, 2) == 31 + Table(leap, 1);
    assert DaysBefore(leap, 4) == DaysBefore(leap, 2) + Table(leap, 2) + Table(leap, 3);
    assert DaysBefore(leap, 6) == DaysBefore(leap, 4) + Table(leap, 4) + Table(leap, 5);
    assert DaysBefore(leap, 8) == DaysBefore(leap, 6) + Table(leap, 6) + Table(leap, 7);
    assert DaysBefore(leap, 10) == DaysBefore(leap, 8) + Table(leap, 8) + Table(leap, 9);
    assert DaysBefore(leap, 12) == DaysBefore(leap, 10) + Table(leap, 10) + Table(leap, 11);
  }

  /** Months are numbered through: month `m` of year `y`, counted from 1, is 12 * y + m - 1. */
  function MonthStart(mi: int): (day: int) {
    YearStart(mi / 12) + DaysBefore(Leap(mi / 12), mi % 12)
  }

  lemma MonthLength(mi: int)
    ensures MonthStart(mi + 1) == MonthStart(mi) + Table(Leap(mi / 12), mi % 12)
  {
    var y, m := mi / 12, mi % 12;
    if m < 11 {
      assert (mi + 1) / 12 == y && (mi + 1) % 12 == m + 1;
    } else {
      assert (mi + 1) / 12 == y + 1 && (mi + 1) % 12 == 0;
      YearLength(y);
      WholeYear(Leap(y));
      LastMonth(Leap(y));
    }
  }

  lemma LastMonth(leap: bool)
    ensures DaysBefore(leap, 12) == DaysBefore(leap, 11) + Table(leap, 11)
  {
  }

  // ---------------------------------------------------------------- days and months

  /** A calendar, by the day each month starts on. */
  type Starts = int -> int

  function Gregorian(): (cal: Starts) {
    (mi: int) => MonthStart(mi)
  }

  function Length(cal: Starts, mi: int): (n: int) {
    cal(mi + 1) - cal(mi)
  }

  predicate Regular(cal: Starts, mi: int) {
    28 <= Length(cal, mi) <= 31
  }

  /** Every month has 28 to 31 days; that is all the rest needs to know. */
  ghost predicate Proper(cal: Starts) {
    forall mi :: Regular(cal, mi)
  }

  lemma GregorianLength(mi: int)
    ensures Length(Gregorian(), mi) == Table(Leap(mi / 12), mi % 12)
  {
    MonthLength(mi);
  }

  lemma GregorianIsProper()
    ensures Proper(Gregorian())
  {
    forall mi ensures Regular(Gregorian(), mi) {
      GregorianLength(mi);
    }
  }

  lemma {:induction false} MonthsApart(cal: Starts, a: int, b: int)
    requires Proper(cal) && a <= b
    ensures 28 * (b - a) <= cal(b) - cal(a) <= 31 * (b - a)
    decreases b - a
  {
    if a < b {
      MonthsApart(cal, a, b - 1);
      assert Regular(cal, b - 1);
    }
  }

  ghost predicate InMonth(cal: Starts, day: int, mi: int) {
    cal(mi) <= day < cal(mi + 1)
  }

  function Up(cal: Starts, day: int, mi: int): (found: int)
    requires Proper(cal) && cal(mi) <= day
    ensures InMonth(cal, day, found)
    decreases day - cal(mi)
  {
    assert Regular(cal, mi);
    if day < cal(mi + 1) then mi else Up(cal, day, mi + 1)
  }

  function Down(cal: Starts, day: int, mi: int): (found: int)
    requires Proper(cal) && day < cal(mi + 1)
    ensures InMonth(cal, day, found)
    decreases cal(mi + 1) - day
  {
    assert Regular(cal, mi);
    if cal(mi) <= day then mi else Down(cal, day, mi - 1)
  }

  /** The month a day lies in. */
  function MonthOf(cal: Starts, day: int): (mi: int)
    requires Proper(cal)
    ensures InMonth(cal, day, mi)
  {
    if cal(12) <= day then Up(cal, day, 12) else Down(cal, day, 11)
  }

  lemma MonthUnique(cal: Starts, day: int, mi: int)
    requires Proper(cal) && InMonth(cal, day, mi)
    ensures MonthOf(cal, day) == mi
  {
    var found := MonthOf(cal, day);
    if found < mi {
      MonthsApart(cal, found + 1, mi);
    } else if mi < found {
      MonthsApart(cal, mi + 1, found);
    }
  }

  lemma MonthOrder(cal: Starts, d: int, e: int)
    requires Proper(cal) && d <= e
    ensures MonthOf(cal, d) <= MonthOf(cal, e)
  {
    var a, b := MonthOf(cal, d), MonthOf(cal, e);
    if b < a {
      MonthsApart(cal, b + 1, a);
    }
  }

  function Min(a: int, b: int): (m: int) {
    if a < b then a else b
  }

  /** Day `d` of the month `n` before the one of day `x`, cut to that month. */
  function Back(cal: Starts, x: int, n: int): (y: int)
    requires Proper(cal)
  {
    var a := MonthOf(cal, x);
    cal(a - n) + Min(x - cal(a), Length(cal, a - n) - 1)
  }

  lemma BackLands(cal: Starts, x: int, n: int)
    requires Proper(cal)
    ensures MonthOf(cal, Back(cal, x, n)) == MonthOf(cal, x) - n
  {
    var a := MonthOf(cal, x);
    assert Regular(cal, a - n);
    MonthUnique(cal, Back(cal, x, n), a - n);
  }

  lemma BackSpan(cal: Starts, x: int, n: nat)
    requires Proper(cal)
    ensures 28 * n <= x - Back(cal, x, n) <= 31 * n
  {
    var a := MonthOf(cal, x);
    MonthsApart(cal, a - n, a);
    assert Regular(cal, a) && Regular(cal, a - n);
    if n > 0 {
      MonthsApart(cal, a - n + 1, a);
    }
  }

  /** Stepping back keeps the order of days, and makes two days one exactly when both are cut to the same month end. */
  lemma BackOrder(cal: Starts, x: int, y: int, n: int)
    requires Proper(cal) && x < y
    ensures Back(cal, x, n) <= Back(cal, y, n)
    ensures Back(cal, x, n) == Back(cal, y, n) <==>
      MonthOf(cal, x) == MonthOf(cal, y) && Length(cal, MonthOf(cal, x) - n) <= x - cal(MonthOf(cal, x)) + 1
  {
    var a, b := MonthOf(cal, x), MonthOf(cal, y);
    MonthOrder(cal, x, y);
    assert Regular(cal, a - n) && Regular(cal, b - n);
    if a < b {
      MonthsApart(cal, a - n + 1, b - n);
    }
  }

  // ---------------------------------------------------------------- instants

  /** A calendar and a zone's offset from UTC. */
  datatype Zone = Zone(cal: Starts, off: int)

  function DayNo(t: int, off: int): (day: int) {
    (t + off) / DAY
  }

  function Clock(t: int, off: int): (c: int)
    ensures 0 <= c < DAY
  {
    (t + off) % DAY
  }

  function At(day: int, clock: int, off: int): (t: int) {
    day * DAY + clock - off
  }

  /** An instant is a day and a clock time. */
  lemma AtIff(t: int, day: int, clock: int, off: int)
    requires 0 <= clock < DAY
    ensures t == At(day, clock, off) <==> DayNo(t, off) == day && Clock(t, off) == clock
  {
  }

  lemma AtParts(t: int, off: int)
    ensures t == At(DayNo(t, off), Clock(t, off), off)
  {
  }

  lemma AtOrder(d: int, c: int, e: int, f: int, off: int)
    requires 0 <= c < DAY && 0 <= f < DAY
    ensures At(d, c, off) <= At(e, f, off) <==> d < e || (d == e && c <= f)
  {
    if d < e {
      assert (e - d) * DAY >= DAY;
    } else if e < d {
      assert (d - e) * DAY >= DAY;
    }
  }

  function MonthIndex(t: int, z: Zone): (mi: int)
    requires Proper(z.cal)
  {
    MonthOf(z.cal, DayNo(t, z.off))
  }

  function Year(t: int, z: Zone): (y: int)
    requires Proper(z.cal)
  {
    MonthIndex(t, z) / 12
  }

  function Month(t: int, z: Zone): (m: int)
    requires Proper(z.cal)
    ensures 1 <= m <= 12
  {
    MonthIndex(t, z) % 12 + 1
  }

  function Day(t: int, z: Zone): (d: int)
    requires Proper(z.cal)
  {
    DayNo(t, z.off) - z.cal(MonthIndex(t, z)) + 1
  }

  /** time.Weekday: Sunday is 0. */
  function Weekday(t: int, z: Zone): (w: int)
    ensures 0 <= w < 7
  {
    (DayNo(t, z.off) + 1) % 7
  }

  /** time.Date: months and days out of range carry over. */
  function Date(y: int, m: int, d: int, clock: int, z: Zone): (t: int) {
    At(z.cal(12 * y + m - 1) + d - 1, clock, z.off)
  }

  function AddDate(t: int, dy: int, dm: int, dd: int, z: Zone): (u: int)
    requires Proper(z.cal)
  {
    Date(Year(t, z) + dy, Month(t, z) + dm, Day(t, z) + dd, Clock(t, z.off), z)
  }

  lemma YearAndMonth(t: int, z: Zone)
    requires Proper(z.cal)
    ensures 12 * Year(t, z) + Month(t, z) - 1 == MonthIndex(t, z)
  {
    var mi := MonthIndex(t, z);
    assert 12 * (mi / 12) + mi % 12 == mi;
  }

  /** A date read off an instant leads back to its day. */
  lemma DateOfRead(t: int, clock: int, dd: int, z: Zone, y: Zone)
    requires Proper(z.cal) && y.cal == z.cal
    ensures Date(Year(t, z), Month(t, z), Day(t, z) + dd, clock, y) == At(DayNo(t, z.off) + dd, clock, y.off)
  {
    YearAndMonth(t, z);
  }

  /** Adding days adds whole days. */
  lemma AddDaysIs(t: int, dd: int, z: Zone)
    requires Proper(z.cal)
    ensures AddDate(t, 0, 0, dd, z) == At(DayNo(t, z.off) + dd, Clock(t, z.off), z.off) == t + dd * DAY
  {
    DateOfRead(t, Clock(t, z.off), dd, z, z);
    AtParts(t, z.off);
  }

  /** A date in range is read back as it was written. */
  lemma DateRead(y: int, m: int, d: int, clock: int, z: Zone)
    requires Proper(z.cal) && 0 <= clock < DAY && 1 <= d <= Length(z.cal, 12 * y + m - 1)
    ensures var t := Date(y, m, d, clock, z);
      && MonthIndex(t, z) == 12 * y + m - 1 && Day(t, z) == d && Clock(t, z.off) == clock
      && DayNo(t, z.off) == z.cal(12 * y + m - 1) + d - 1
  {
    var mi, t := 12 * y + m - 1, Date(y, m, d, clock, z);
    AtIff(t, z.cal(mi) + d - 1, clock, z.off);
    MonthUnique(z.cal, z.cal(mi) + d - 1, mi);
  }

  lemma EpochDay()
    ensures MonthStart(23_640) == 719_162
  {
    assert 23_640 / 12 == 1970 && 23_640 % 12 == 0;
    assert YearStart(1970) == 719_162;
  }

  lemma AnchorRead(y: int, day: int, clock: int, z: Zone)
    requires Proper(z.cal) && z.off == 0 && 0 <= clock < DAY && z.cal(12 * y) == day
    ensures var t := Date(y, 1, 1, clock, z);
      && t == day * DAY + clock && Weekday(t, z) == (day + 1) % 7
      && Year(t, z) == y && Month(t, z) == 1 && Day(t, z) == 1 && Clock(t, 0) == clock
  {
    assert Regular(z.cal, 12 * y);
    DateRead(y, 1, 1, clock, z);
  }

  /** The calendar is anchored: 1 January 1970 is 719162 whole days after its start, and a Thursday. */
  lemma EpochIsThursday(clock: int)
    requires 0 <= clock < 86_400_000_000_000
    ensures Proper(Gregorian())
    ensures var z := Zone(Gregorian(), 0);
      var t := Date(1970, 1, 1, clock, z);
      && t == 719_162 * 86_400_000_000_000 + clock && Weekday(t, z) == 4
      && Year(t, z) == 1970 && Month(t, z) == 1 && Day(t, z) == 1 && Clock(t, 0) == clock
  {
    GregorianIsProper();
    EpochDay();
    AnchorRead(1970, 719_162, clock, Zone(Gregorian(), 0));
  }

  // ---------------------------------------------------------------- months back

  /** `daysIn`. */
  function DaysIn(y: int, m: int, z: Zone): (n: int)
    requires Proper(z.cal)
  {
    Day(AddDate(Date(y, m + 1, 1, 0, z), 0, 0, -1, z), z)
  }

  lemma DaysInIs(y: int, m: int, z: Zone)
    requires Proper(z.cal)
    ensures DaysIn(y, m, z) == Length(z.cal, 12 * y + m - 1)
  {
    var mi, first := 12 * y + m - 1, Date(y, m + 1, 1, 0, z);
    assert Regular(z.cal, mi);
    AtIff(first, z.cal(mi + 1), 0, z.off);
    AddDaysIs(first, -1, z);
    AtIff(AddDate(first, 0, 0, -1, z), z.cal(mi + 1) - 1, 0, z.off);
    MonthUnique(z.cal, z.cal(mi + 1) - 1, mi);
  }

  lemma MonthParts(y: int, m: int)
    requires 1 <= m <= 12
    ensures (12 * y + m - 1) / 12 == y && (12 * y + m - 1) % 12 == m - 1
  {
  }

  lemma TableIs(y: int, m: int)
    requires 1 <= m <= 12
    ensures Table(Leap(y), m - 1) ==
      if m == 2 then (if y % 400 == 0 || (y % 4 == 0 && y % 100 != 0) then 29 else 28)
      else if m == 4 || m == 6 || m == 9 || m == 11 then 30 else 31
  {
    YearLength(y);
  }

  lemma DaysInIsTable(y: int, m: int, off: int)
    ensures Proper(Gregorian())
    ensures var mi := 12 * y + m - 1; DaysIn(y, m, Zone(Gregorian(), off)) == Table(Leap(mi / 12), mi % 12)
  {
    GregorianIsProper();
    GregorianLength(12 * y + m - 1);
    DaysInIs(y, m, Zone(Gregorian(), off));
  }

  /** It is the Gregorian table, for all years; a month beyond December is one of a later year. */
  lemma DaysInIsGregorian(y: int, m: int, off: int)
    requires 1 <= m <= 12
    ensures Proper(Gregorian())
    ensures DaysIn(y, m, Zone(Gregorian(), off)) ==
      if m == 2 then (if y % 400 == 0 || (y % 4 == 0 && y % 100 != 0) then 29 else 28)
      else if m == 4 || m == 6 || m == 9 || m == 11 then 30 else 31
  {
    DaysInIsTable(y, m, off);
    MonthParts(y, m);
    TableIs(y, m);
  }

  /** The month exactly `n` back, the day cut to its length, the clock as it was. */
  ghost predicate IsMonthsBefore(r: int, t: int, n: int, z: Zone)
    requires Proper(z.cal)
  {
    && MonthIndex(r, z) == MonthIndex(t, z) - n
    && Day(r, z) == Min(Day(t, z), Length(z.cal, MonthIndex(t, z) - n))
    && Clock(r, z.off) == Clock(t, z.off)
  }

  /** The three clauses determine the result. */
  lemma MonthsBeforeIs(r: int, t: int, n: int, z: Zone)
    requires Proper(z.cal)
    ensures IsMonthsBefore(r, t, n, z) <==>
      DayNo(r, z.off) == Back(z.cal, DayNo(t, z.off), n) && Clock(r, z.off) == Clock(t, z.off)
  {
    BackLands(z.cal, DayNo(t, z.off), n);
  }

  method MonthsBefore(t: int, n: int, z: Zone) returns (r: int)
    requires Proper(z.cal)
    ensures IsMonthsBefore(r, t, n, z)
  {
    var year, month := Year(t, z), Month(t, z) - n;
    ghost var mi := MonthIndex(t, z);
    YearAndMonth(t, z);
    while month <= 0
      invariant 12 * year + month - 1 == mi - n
      decreases -month
    {
      month := month + 12;
      year := year - 1;
    }
    var day := Day(t, z);
    var last := DaysIn(year, month, z);
    DaysInIs(year, month, z);
    if day > last {
      day := last;
    }
    assert Regular(z.cal, mi) && Regular(z.cal, mi - n);
    r := Date(year, month, day, Clock(t, z.off), z);
    DateRead(year, month, day, Clock(t, z.off), z);
  }

  /** A step of n months spans 28n to 31n whole days. */
  lemma MonthsSpan(r: int, t: int, n: nat, z: Zone) returns (k: int)
    requires Proper(z.cal) && IsMonthsBefore(r, t, n, z)
    ensures t - r == k * DAY && 28 * n <= k <= 31 * n
  {
    MonthsBeforeIs(r, t, n, z);
    k := DayNo(t, z.off) - Back(z.cal, DayNo(t, z.off), n);
    BackSpan(z.cal, DayNo(t, z.off), n);
    AtParts(r, z.off);
    AtParts(t, z.off);
  }

  /** Later days step back to later days, or the same. */
  lemma MonthsMonotoneInDays(r: int, t: int, s: int, u: int, n: int, z: Zone)
    requires Proper(z.cal) && IsMonthsBefore(r, t, n, z) && IsMonthsBefore(s, u, n, z)
    requires DayNo(t, z.off) <= DayNo(u, z.off)
    ensures DayNo(r, z.off) <= DayNo(s, z.off)
  {
    MonthsBeforeIs(r, t, n, z);
    MonthsBeforeIs(s, u, n, z);
    if DayNo(t, z.off) < DayNo(u, z.off) {
      BackOrder(z.cal, DayNo(t, z.off), DayNo(u, z.off), n);
    }
  }

  /**
   By the clock, order is lost exactly when two days of one month are both cut to the last day of the target
   month and the earlier one has the later clock.
   */
  lemma MonthsInvertIff(r: int, t: int, s: int, u: int, n: int, z: Zone)
    requires Proper(z.cal) && IsMonthsBefore(r, t, n, z) && IsMonthsBefore(s, u, n, z) && t <= u
    ensures s < r <==>
      && MonthIndex(t, z) == MonthIndex(u, z)
      && Length(z.cal, MonthIndex(t, z) - n) <= Day(t, z) < Day(u, z)
      && Clock(u, z.off) < Clock(t, z.off)
  {
    var x, y, c, d := DayNo(t, z.off), DayNo(u, z.off), Clock(t, z.off), Clock(u, z.off);
    MonthsBeforeIs(r, t, n, z);
    MonthsBeforeIs(s, u, n, z);
    AtParts(t, z.off);
    AtParts(u, z.off);
    AtParts(r, z.off);
    AtParts(s, z.off);
    AtOrder(x, c, y, d, z.off);
    AtOrder(Back(z.cal, x, n), c, Back(z.cal, y, n), d, z.off);
    if x < y {
      BackOrder(z.cal, x, y, n);
    }
  }

  /** 29 March, 10:00, and 30 March, 09:00, of any common year: one month back, the later one comes first. */
  lemma ClockOrderIsLost(y: int, r: int, t: int, s: int, u: int, z: Zone)
    requires z.cal == Gregorian() && Proper(z.cal) && !Leap(y)
    requires t == Date(y, 3, 29, 10 * HOUR, z) && u == Date(y, 3, 30, 9 * HOUR, z)
    requires IsMonthsBefore(r, t, 1, z) && IsMonthsBefore(s, u, 1, z)
    ensures t < u && s < r
  {
    March(12 * y + 2, y);
    EarlierMonthEnd(12 * y + 2, y, r, t, s, u, z);
  }

  lemma March(mi: int, y: int)
    requires mi == 12 * y + 2 && !Leap(y)
    ensures Length(Gregorian(), mi) == 31 && Length(Gregorian(), mi - 1) == 28
  {
    assert mi / 12 == y && mi % 12 == 2;
    assert (mi - 1) / 12 == y && (mi - 1) % 12 == 1;
    GregorianLength(mi);
    GregorianLength(mi - 1);
  }

  lemma EarlierMonthEnd(mi: int, y: int, r: int, t: int, s: int, u: int, z: Zone)
    requires Proper(z.cal) && mi == 12 * y + 2 && Length(z.cal, mi) == 31 && Length(z.cal, mi - 1) == 28
    requires t == Date(y, 3, 29, 10 * HOUR, z) && u == Date(y, 3, 30, 9 * HOUR, z)
    requires IsMonthsBefore(r, t, 1, z) && IsMonthsBefore(s, u, 1, z)
    ensures t < u && s < r
  {
    DateRead(y, 3, 29, 10 * HOUR, z);
    DateRead(y, 3, 30, 9 * HOUR, z);
    MonthsInvertIff(r, t, s, u, 1, z);
  }

  // ---------------------------------------------------------------- weeks

  function StartOfDay(t: int, z: Zone): (s: int)
    requires Proper(z.cal)
  {
    Date(Year(t, z), Month(t, z), Day(t, z), 0, z)
  }

  /** Monday 00:00 of the week of `t`. */
  function StartOfWeek(t: int, z: Zone): (s: int)
    requires Proper(z.cal)
  {
    AddDate(StartOfDay(t, z), 0, 0, -((Weekday(t, z) + 6) % 7), z)
  }

  /** The Monday at or before a day. */
  function MondayOf(day: int): (d: int) {
    day - day % 7
  }

  lemma MondayIff(day: int, d: int)
    ensures d == MondayOf(day) <==> (d + 1) % 7 == 1 && d <= day < d + 7
    ensures ((day + 1) % 7 + 6) % 7 == day % 7
  {
  }

  lemma StartOfWeekIs(t: int, z: Zone)
    requires Proper(z.cal)
    ensures StartOfWeek(t, z) == At(MondayOf(DayNo(t, z.off)), 0, z.off)
  {
    var s := StartOfDay(t, z);
    DateOfRead(t, 0, 0, z, z);
    AtIff(s, DayNo(t, z.off), 0, z.off);
    AddDaysIs(s, -((Weekday(t, z) + 6) % 7), z);
    MondayIff(DayNo(t, z.off), 0);
  }

  ghost predicate MondayMidnight(s: int, z: Zone) {
    Clock(s, z.off) == 0 && Weekday(s, z) == 1
  }

  /** The start of the week is the one Monday midnight less than seven days back. */
  lemma StartOfWeekUnique(t: int, s: int, z: Zone)
    requires Proper(z.cal)
    ensures s == StartOfWeek(t, z) <==> MondayMidnight(s, z) && s <= t < s + WEEK
  {
    StartOfWeekIs(t, z);
    MondayIff(DayNo(t, z.off), DayNo(s, z.off));
    AtIff(s, MondayOf(DayNo(t, z.off)), 0, z.off);
    if Clock(s, z.off) == 0 {
      WeekContains(t, s, z.off);
    }
  }

  lemma WeekContains(t: int, s: int, off: int)
    requires Clock(s, off) == 0
    ensures s <= t < s + WEEK <==> DayNo(s, off) <= DayNo(t, off) < DayNo(s, off) + 7
  {
    AtParts(s, off);
    AtParts(t, off);
    var d, e := DayNo(t, off), DayNo(s, off);
    AtOrder(e, 0, d, Clock(t, off), off);
    AtOrder(e + 7, 0, d, Clock(t, off), off);
    assert At(e + 7, 0, off) == s + WEEK;
  }

  // ---------------------------------------------------------------- windows

  datatype Kind = LastWeek | LastNMonths | WeekToDate | MonthToDate | YearToDate | Unknown(text: string)

  datatype Window = Window(kind: Kind, months: int)

  const MAX_MONTHS := 60

  /** Half-open. */
  datatype Range = Range(from: int, to: int)

  predicate Contains(r: Range, t: int) {
    !(t < r.from) && t < r.to
  }

  predicate Valid(w: Window) {
    !w.kind.Unknown? && (if w.kind.LastNMonths? then 1 <= w.months <= MAX_MONTHS else w.months == 0)
  }

  /** Midnight on the first day of a month. */
  ghost predicate IsFirst(s: int, mi: int, z: Zone)
    requires Proper(z.cal)
  {
    MonthIndex(s, z) == mi && Day(s, z) == 1 && Clock(s, z.off) == 0
  }

  /** What each kind of window covers. */
  ghost predicate Covers(w: Window, now: int, z: Zone, r: Range)
    requires Proper(z.cal)
  {
    match w.kind
    case LastWeek => MondayMidnight(r.to, z) && r.to <= now < r.to + WEEK && r.from == r.to - WEEK
    case WeekToDate => MondayMidnight(r.from, z) && r.from <= now < r.from + WEEK && r.to == now
    case MonthToDate => IsFirst(r.from, MonthIndex(now, z), z) && r.to == now
    case YearToDate => IsFirst(r.from, 12 * Year(now, z), z) && r.to == now
    case LastNMonths => IsMonthsBefore(r.from, now, w.months, z) && r.to == now
    case Unknown(_) => false
  }

  /** `Resolve`: an error exactly for windows that are not well formed. */
  method Resolve(w: Window, now: int, z: Zone) returns (r: Option<Range>)
    requires Proper(z.cal)
    ensures r.Some? <==>
      !w.kind.Unknown? && (if w.kind.LastNMonths? then 1 <= w.months <= 60 else w.months == 0)
    ensures r.Some? ==> Covers(w, now, z, r.value)
  {
    if !Valid(w) {
      return None;
    }
    StartOfWeekUnique(now, StartOfWeek(now, z), z);
    match w.kind {
      case LastWeek =>
        var monday := StartOfWeek(now, z);
        AddDaysIs(monday, -7, z);
        return Some(Range(AddDate(monday, 0, 0, -7, z), monday));
      case WeekToDate =>
        return Some(Range(StartOfWeek(now, z), now));
      case MonthToDate =>
        FirstOfMonth(now, z);
        return Some(Range(AddDate(StartOfDay(now, z), 0, 0, 1 - Day(now, z), z), now));
      case YearToDate =>
        FirstOfYear(now, z);
        return Some(Range(Date(Year(now, z), 1, 1, 0, z), now));
      case LastNMonths =>
        var from := MonthsBefore(now, w.months, z);
        return Some(Range(from, now));
    }
  }

  lemma FirstOfMonth(t: int, z: Zone)
    requires Proper(z.cal)
    ensures IsFirst(AddDate(StartOfDay(t, z), 0, 0, 1 - Day(t, z), z), MonthIndex(t, z), z)
  {
    var s, mi := StartOfDay(t, z), MonthIndex(t, z);
    assert Regular(z.cal, mi);
    DateOfRead(t, 0, 0, z, z);
    AtIff(s, DayNo(t, z.off), 0, z.off);
    AddDaysIs(s, 1 - Day(t, z), z);
    AtIff(AddDate(s, 0, 0, 1 - Day(t, z), z), z.cal(mi), 0, z.off);
    MonthUnique(z.cal, z.cal(mi), mi);
  }

  lemma FirstOfYear(t: int, z: Zone)
    requires Proper(z.cal)
    ensures IsFirst(Date(Year(t, z), 1, 1, 0, z), 12 * Year(t, z), z)
  {
    assert Regular(z.cal, 12 * Year(t, z));
    DateRead(Year(t, z), 1, 1, 0, z);
  }

  /** No window starts after it ends, or reaches into the future. */
  lemma RangesReachBack(w: Window, now: int, z: Zone, r: Range)
    requires Proper(z.cal) && Valid(w) && Covers(w, now, z, r)
    ensures r.from <= r.to <= now
    ensures !Contains(r, now)
    ensures w.kind.LastWeek? || w.kind.LastNMonths? ==> r.from < r.to
  {
    match w.kind
    case LastWeek =>
    case WeekToDate =>
    case MonthToDate => FirstIsBefore(r.from, MonthIndex(now, z), now, z);
    case YearToDate =>
      YearAndMonth(now, z);
      FirstIsBefore(r.from, 12 * Year(now, z), now, z);
    case LastNMonths => var k := MonthsSpan(r.from, now, w.months, z);
  }

  lemma FirstIsBefore(s: int, mi: int, t: int, z: Zone)
    requires Proper(z.cal) && IsFirst(s, mi, z) && mi <= MonthIndex(t, z)
    ensures s <= t
  {
    MonthsApart(z.cal, mi, MonthIndex(t, z));
    AtParts(s, z.off);
    AtParts(t, z.off);
    AtOrder(DayNo(s, z.off), 0, DayNo(t, z.off), Clock(t, z.off), z.off);
  }

  /**
   Last weeks tile the time line: an instant lies in the last week seen from the week after its own, and from
   no other. Last week ends where week-to-date begins.
   */
  lemma LastWeeksTile(now: int, x: int, z: Zone, r: Range, toDate: Range)
    requires Proper(z.cal)
    requires Covers(Window(LastWeek, 0), now, z, r) && Covers(Window(WeekToDate, 0), now, z, toDate)
    ensures Contains(r, x) <==> StartOfWeek(now, z) == StartOfWeek(x, z) + WEEK
    ensures r.to == toDate.from && !(Contains(r, x) && Contains(toDate, x))
    ensures Contains(r, x) || Contains(toDate, x) <==> r.from <= x < now
  {
    StartOfWeekUnique(now, r.to, z);
    StartOfWeekUnique(now, toDate.from, z);
    StartOfWeekUnique(x, r.from, z);
    WeekLater(r.from, z);
  }

  lemma WeekLater(s: int, z: Zone)
    ensures MondayMidnight(s, z) <==> MondayMidnight(s + WEEK, z)
  {
    AtParts(s, z.off);
    AtIff(s + WEEK, DayNo(s, z.off) + 7, Clock(s, z.off), z.off);
    MondayIff(DayNo(s, z.off), DayNo(s, z.off));
    SevenLater(DayNo(s, z.off));
  }

  lemma SevenLater(d: int)
    ensures (d + 8) % 7 == (d + 1) % 7
  {
  }

  // ---------------------------------------------------------------- utils/date.go

  function Utc(z: Zone): (u: Zone) {
    z.(off := 0)
  }

  /** Monday of the week of `t`, by the date `t` has in its own zone, at 00:00 UTC. */
  function GetWeekStart(t: int, z: Zone): (s: int)
    requires Proper(z.cal)
  {
    var weekday := if Weekday(t, z) == 0 then 7 else Weekday(t, z);
    var start := AddDate(t, 0, 0, -(weekday - 1), z);
    Date(Year(start, z), Month(start, z), Day(start, z), 0, Utc(z))
  }

  function GetWeekEnd(t: int, z: Zone): (e: int)
    requires Proper(z.cal)
  {
    var end := AddDate(GetWeekStart(t, z), 0, 0, 6, Utc(z));
    Date(Year(end, Utc(z)), Month(end, Utc(z)), Day(end, Utc(z)), DAY - 1, Utc(z))
  }

  lemma MondayOffset(day: int)
    ensures var w := (day + 1) % 7; (if w == 0 then 7 else w) - 1 == day % 7
  {
  }

  lemma GetWeekStartIs(t: int, z: Zone)
    requires Proper(z.cal)
    ensures GetWeekStart(t, z) == At(MondayOf(DayNo(t, z.off)), 0, 0)
  {
    var d := DayNo(t, z.off);
    MondayOffset(d);
    AddDaysIs(t, -(d % 7), z);
    var start := AddDate(t, 0, 0, -(d % 7), z);
    AtIff(start, MondayOf(d), Clock(t, z.off), z.off);
    DateOfRead(start, 0, 0, z, Utc(z));
  }

  lemma GetWeekEndIs(t: int, z: Zone)
    requires Proper(z.cal)
    ensures GetWeekEnd(t, z) == At(MondayOf(DayNo(t, z.off)) + 6, DAY - 1, 0)
  {
    var monday, start := MondayOf(DayNo(t, z.off)), GetWeekStart(t, z);
    GetWeekStartIs(t, z);
    AtIff(start, monday, 0, 0);
    AddDaysIs(start, 6, Utc(z));
    AtIff(AddDate(start, 0, 0, 6, Utc(z)), monday + 6, 0, 0);
    DateOfRead(AddDate(start, 0, 0, 6, Utc(z)), DAY - 1, 0, Utc(z), Utc(z));
  }

  lemma NextMonday(t: int, off: int)
    ensures MondayOf(DayNo(t + WEEK, off)) == MondayOf(DayNo(t, off)) + 7
  {
    AtParts(t, off);
    AtIff(t + WEEK, DayNo(t, off) + 7, Clock(t, off), off);
    var d := DayNo(t, off);
    MondayIff(d + 7, MondayOf(d) + 7);
    MondayIff(d, MondayOf(d));
    SevenLater(MondayOf(d));
  }

  /** A nanosecond after the end of a week the next one starts. */
  lemma WeekEndMeetsNext(t: int, z: Zone)
    requires Proper(z.cal)
    ensures GetWeekEnd(t, z) + 1 == GetWeekStart(t, z) + WEEK == GetWeekStart(t + WEEK, z)
  {
    GetWeekEndIs(t, z);
    GetWeekStartIs(t, z);
    GetWeekStartIs(t + WEEK, z);
    NextMonday(t, z.off);
  }

  /** In UTC the two notions of a week's start are one. */
  lemma WeekStartsAgree(t: int, z: Zone)
    requires Proper(z.cal) && z.off == 0
    ensures GetWeekStart(t, z) == StartOfWeek(t, z)
  {
    GetWeekStartIs(t, z);
    StartOfWeekIs(t, z);
  }

  /** The Thursday that decides a day's ISO week. */
  function Thursday(t: int, z: Zone): (day: int) {
    DayNo(t, z.off) + (if 4 - Weekday(t, z) == 4 then -3 else 4 - Weekday(t, z))
  }

  function YearOfDay(cal: Starts, day: int): (y: int)
    requires Proper(cal)
  {
    MonthOf(cal, day) / 12
  }

  /** The year of a Thursday, and which of its weeks it is in. */
  function WeekOfThursday(cal: Starts, day: int): (yw: (int, int))
    requires Proper(cal)
  {
    (YearOfDay(cal, day), (day - cal(12 * YearOfDay(cal, day))) / 7 + 1)
  }

  /** time.ISOWeek. */
  function IsoWeek(t: int, z: Zone): (yw: (int, int))
    requires Proper(z.cal)
  {
    WeekOfThursday(z.cal, Thursday(t, z))
  }

  predicate IsSameWeek(t: int, z: Zone, u: int, x: Zone)
    requires Proper(z.cal) && Proper(x.cal)
  {
    var a, b := IsoWeek(t, z), IsoWeek(u, x);
    a.0 == b.0 && a.1 == b.1
  }

  lemma ThursdayIs(t: int, z: Zone)
    ensures Thursday(t, z) == MondayOf(DayNo(t, z.off)) + 3 && Thursday(t, z) % 7 == 3
  {
    MondayOffset(DayNo(t, z.off));
  }

  lemma SameSevenDays(d: int, e: int, from: int)
    requires (d - from) / 7 == (e - from) / 7 && d % 7 == e % 7
    ensures d == e
  {
  }

  lemma WeekTellsThursday(cal: Starts, d: int, e: int)
    requires Proper(cal) && d % 7 == e % 7 == 3
    ensures WeekOfThursday(cal, d) == WeekOfThursday(cal, e) <==> d == e
  {
    if WeekOfThursday(cal, d) == WeekOfThursday(cal, e) {
      SameSevenDays(d, e, cal(12 * YearOfDay(cal, d)));
    }
  }

  /** Two dates, in whatever zones, are in the same ISO week exactly when their weeks start on the same Monday. */
  lemma IsSameWeekIff(t: int, z: Zone, u: int, x: Zone)
    requires Proper(z.cal) && x.cal == z.cal
    ensures IsSameWeek(t, z, u, x) <==> GetWeekStart(t, z) == GetWeekStart(u, x)
  {
    GetWeekStartIs(t, z);
    GetWeekStartIs(u, x);
    ThursdayIs(t, z);
    ThursdayIs(u, x);
    WeekTellsThursday(z.cal, Thursday(t, z), Thursday(u, x));
    SameMonday(MondayOf(DayNo(t, z.off)), MondayOf(DayNo(u, x.off)));
  }

  lemma SameMonday(a: int, b: int)
    ensures At(a, 0, 0) == At(b, 0, 0) <==> a == b
  {
    AtOrder(a, 0, b, 0, 0);
    AtOrder(b, 0, a, 0, 0);
  }
}
