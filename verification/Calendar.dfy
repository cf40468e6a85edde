/** Dates as the traffic periods use them (inbound_policy.py): the proleptic Gregorian calendar
    by its day numbers, and a time zone as its midnights. */
module Calendar {

  datatype Date = Date(year: nat, month: nat, day: nat)

  predicate Leap(y: nat) {
    y % 4 == 0 && (y % 100 != 0 || y % 400 == 0)
  }

  function MonthLen(y: nat, m: nat): (n: nat)
    ensures 28 <= n <= 31
  {
    if m == 2 then (if Leap(y) then 29 else 28)
    else if m == 4 || m == 6 || m == 9 || m == 11 then 30
    else 31
  }

  predicate IsDate(d: Date) {
    d.year >= 1 && 1 <= d.month <= 12 && 1 <= d.day <= MonthLen(d.year, d.month)
  }

  /** Months since the calendar's beginning. */
  function MonthIndex(d: Date): int {
    12 * d.year + d.month
  }

  /** The days before a month, the months counted on through the years. */
  function DaysBefore(y: nat, m: nat): nat
    requires 1 <= m <= 12
    decreases y, m
  {
    if m > 1 then DaysBefore(y, m - 1) + MonthLen(y, m - 1)
    else if y <= 1 then 0
    else DaysBefore(y - 1, 12) + MonthLen(y - 1, 12)
  }

  /** The number of a day: 1 for 1 January of the year 1. */
  function Ordinal(d: Date): nat
    requires IsDate(d)
  {
    DaysBefore(d.year, d.month) + d.day
  }

  /** The day after. */
  function Next(d: Date): (n: Date)
    requires IsDate(d)
    ensures IsDate(n)
  {
    if d.day < MonthLen(d.year, d.month) then Date(d.year, d.month, d.day + 1)
    else if d.month < 12 then Date(d.year, d.month + 1, 1)
    else Date(d.year + 1, 1, 1)
  }

  function FromOrdinal(n: nat): (d: Date)
    requires n >= 1
    ensures IsDate(d)
  {
    if n == 1 then Date(1, 1, 1) else Next(FromOrdinal(n - 1))
  }

  lemma {:induction false} OrdinalOfNumber(n: nat)
    requires n >= 1
    ensures Ordinal(FromOrdinal(n)) == n
  {
    if n == 1 {
      assert DaysBefore(1, 1) == 0;
    } else {
      OrdinalOfNumber(n - 1);
      NextOrdinal(FromOrdinal(n - 1));
    }
  }

  lemma NextOrdinal(d: Date)
    requires IsDate(d)
    ensures Ordinal(Next(d)) == Ordinal(d) + 1
  {}

  /** Later months begin later, by at least the length of what lies between. */
  lemma {:induction false} DaysBeforeMonotone(y: nat, m: nat, y': nat, m': nat)
    requires 1 <= m <= 12 && 1 <= m' <= 12 && y >= 1 && 12 * y + m < 12 * y' + m'
    ensures DaysBefore(y, m) + MonthLen(y, m) <= DaysBefore(y', m')
    decreases y', m'
  {
    hide MonthLen;
    if m' > 1 {
      if 12 * y + m < 12 * y' + m' - 1 { DaysBeforeMonotone(y, m, y', m' - 1); }
    } else {
      if 12 * y + m < 12 * (y' - 1) + 12 { DaysBeforeMonotone(y, m, y' - 1, 12); }
    }
  }

  predicate Earlier(a: Date, b: Date) {
    MonthIndex(a) < MonthIndex(b) || (MonthIndex(a) == MonthIndex(b) && a.day < b.day)
  }

  /** Day numbers follow the calendar. */
  lemma OrdinalMonotone(a: Date, b: Date)
    requires IsDate(a) && IsDate(b)
    ensures Ordinal(a) < Ordinal(b) <==> Earlier(a, b)
    ensures Ordinal(a) == Ordinal(b) <==> a == b
  {
    if MonthIndex(a) < MonthIndex(b) {
      DaysBeforeMonotone(a.year, a.month, b.year, b.month);
    } else if MonthIndex(a) > MonthIndex(b) {
      DaysBeforeMonotone(b.year, b.month, a.year, a.month);
    }
  }

  lemma NumberOfOrdinal(d: Date)
    requires IsDate(d)
    ensures Ordinal(d) >= 1 && FromOrdinal(Ordinal(d)) == d
  {
    OrdinalOfNumber(Ordinal(d));
    OrdinalMonotone(FromOrdinal(Ordinal(d)), d);
  }

  // ---- Universal time ----

  /** The day of 1 January 1970, which times are counted from. */
  const EPOCH := 719163

  lemma EpochDay()
    ensures Ordinal(Date(1970, 1, 1)) == EPOCH
  {
    DaysBeforeYear(1970);
  }

  lemma {:induction false} DaysBeforeYear(y: nat)
    requires y >= 1
    ensures DaysBefore(y, 1) == 365 * (y - 1) + (y - 1) / 4 - (y - 1) / 100 + (y - 1) / 400
    decreases y
  {
    if y > 1 {
      DaysBeforeYear(y - 1);
      YearLength(y - 1);
      LeapCount(y - 1);
    }
  }

  lemma YearLength(y: nat)
    requires y >= 1
    ensures DaysBefore(y + 1, 1) == DaysBefore(y, 1) + if Leap(y) then 366 else 365
  {
    hide Leap;
    assert DaysBefore(y, 3) == DaysBefore(y, 1) + 31 + MonthLen(y, 2);
    assert DaysBefore(y, 5) == DaysBefore(y, 3) + 61;
    assert DaysBefore(y, 7) == DaysBefore(y, 5) + 61;
    assert DaysBefore(y, 9) == DaysBefore(y, 7) + 62;
    assert DaysBefore(y, 11) == DaysBefore(y, 9) + 61;
    assert DaysBefore(y, 12) == DaysBefore(y, 11) + 30;
  }

  lemma LeapCount(y: nat)
    requires y >= 1
    ensures y / 4 - y / 100 + y / 400
         == (y - 1) / 4 - (y - 1) / 100 + (y - 1) / 400 + if Leap(y) then 1 else 0
  {
    CountOf4(y);
    CountOf100(y);
    CountOf400(y);
    Centuries(y);
  }

  lemma CountOf4(y: nat)
    requires y >= 1
    ensures y / 4 == (y - 1) / 4 + if y % 4 == 0 then 1 else 0
  {}

  lemma CountOf100(y: nat)
    requires y >= 1
    ensures y / 100 == (y - 1) / 100 + if y % 100 == 0 then 1 else 0
  {}

  lemma CountOf400(y: nat)
    requires y >= 1
    ensures y / 400 == (y - 1) / 400 + if y % 400 == 0 then 1 else 0
  {}

  lemma Centuries(y: nat)
    ensures y % 400 == 0 ==> y % 100 == 0
    ensures y % 100 == 0 ==> y % 4 == 0
  {
    Multiple(y, 100, 4);
    Multiple(y, 4, 25);
  }

  lemma Multiple(y: nat, n: nat, m: nat)
    requires n in {4, 100} && m in {4, 25}
    ensures y % (n * m) == 0 ==> y % n == 0
  {
    if y % (n * m) == 0 {
      var q := y / (n * m);
      assert y == n * (m * q);
      if n == 4 { assert y == 4 * (m * q); } else { assert y == 100 * (m * q); }
    }
  }

  /** The day of a time where the clocks show universal time. */
  function UtcDay(t: int): int { t / 86400 + EPOCH }

  // ---- Local time ----

  /** A time zone: when each day starts, and the day of each time. Days may be shorter or longer
      than 24 hours, as when the clocks change. */
  datatype Zone = Zone(midnight: int -> int, day: int -> int) {
    ghost predicate Valid() {
      (forall d: int :: midnight(d) < midnight(d + 1))
      && (forall t: int :: midnight(day(t)) <= t < midnight(day(t) + 1))
      && (forall t: int :: t >= 0 ==> day(t) >= 1)
    }

    /** Nowhere is the date more than a day off. */
    ghost predicate NearUtc() {
      forall t: int :: UtcDay(t) - 1 <= day(t) <= UtcDay(t) + 1
    }
  }

  lemma {:induction false} MidnightMonotone(z: Zone, a: int, b: int)
    requires z.Valid() && a <= b
    ensures z.midnight(a) <= z.midnight(b) && (a < b ==> z.midnight(a) < z.midnight(b))
    decreases b - a
  {
    if a < b {
      MidnightMonotone(z, a, b - 1);
      assert z.midnight(b - 1) < z.midnight(b - 1 + 1);
    }
  }

  /** A time is on day d or later exactly from d's midnight on. */
  lemma DayMeaning(z: Zone, t: int, d: int)
    requires z.Valid()
    ensures z.day(t) >= d <==> t >= z.midnight(d)
    ensures z.day(z.midnight(d)) == d
  {
    DayFrom(z, t, d);
    DayFrom(z, z.midnight(d), d);
    DayFrom(z, z.midnight(d), d + 1);
    assert z.midnight(d) < z.midnight(d + 1);
  }

  lemma DayFrom(z: Zone, t: int, d: int)
    requires z.Valid()
    ensures z.day(t) >= d <==> t >= z.midnight(d)
  {
    if z.day(t) >= d {
      MidnightMonotone(z, d, z.day(t));
    } else {
      MidnightMonotone(z, z.day(t) + 1, d);
    }
  }

  function DateAt(z: Zone, t: int): (d: Date)
    requires z.day(t) >= 1
    ensures IsDate(d)
  {
    FromOrdinal(z.day(t))
  }
}
