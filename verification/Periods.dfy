/** Traffic periods (inbound_policy.py): when one ends, and rolling past the boundaries. Times
    are whole seconds: a boundary is one, so what a fraction adds never matters. */
module Periods {
  import opened Wrappers
  import opened Arithmetic
  import opened Calendar

  datatype Period = Daily | Weekly | Monthly

  /** What a user's traffic is measured against. anchor: 1 to 31, none in older state. */
  datatype UserState = UserState(start: int, baselineUp: nat, baselineDown: nat, anchor: Option<nat>)

  predicate IsState(z: Zone, us: UserState) {
    us.start > 0 && z.day(us.start) >= 1 && (us.anchor.Some? ==> 1 <= us.anchor.value <= 31)
  }

  function AddPeriod(d: Date, p: Period, anchor: nat): (r: Date)
    requires IsDate(d) && anchor >= 1
    ensures IsDate(r)
  {
    match p
    case Daily => OrdinalPositive(d); FromOrdinal(Ordinal(d) + 1)
    case Weekly => OrdinalPositive(d); FromOrdinal(Ordinal(d) + 7)
    case Monthly =>
      var (year, month) := if d.month == 12 then (d.year + 1, 1) else (d.year, d.month + 1);
      Date(year, month, Min(anchor, MonthLen(year, month)))
  }

  lemma OrdinalPositive(d: Date)
    requires IsDate(d)
    ensures Ordinal(d) >= 1
  {}

  function Anchor(z: Zone, us: UserState): (a: nat)
    requires IsState(z, us)
    ensures a >= 1
  {
    if us.anchor.Some? then us.anchor.value else DateAt(z, us.start).day
  }

  /** When the period ends: the midnight of the day it renews on. */
  function PeriodEnd(z: Zone, p: Period, us: UserState): int
    requires IsState(z, us)
  {
    z.midnight(Ordinal(AddPeriod(DateAt(z, us.start), p, Anchor(z, us))))
  }

  /** The state at the start of the next period. */
  function Renewed(z: Zone, p: Period, us: UserState): UserState
    requires IsState(z, us)
  {
    us.(start := PeriodEnd(z, p, us), baselineUp := 0, baselineDown := 0)
  }

  lemma AddPeriodLater(d: Date, p: Period, anchor: nat)
    requires IsDate(d) && anchor >= 1
    ensures Ordinal(AddPeriod(d, p, anchor)) > Ordinal(d)
  {
    hide FromOrdinal, MonthLen, Ordinal;
    OrdinalPositive(d);
    if p == Monthly {
      OrdinalMonotone(d, AddPeriod(d, p, anchor));
    } else {
      OrdinalOfNumber(Ordinal(d) + 1);
      OrdinalOfNumber(Ordinal(d) + 7);
    }
  }

  /** Every boundary is later than the start, by a day at least. */
  lemma EndIsLater(z: Zone, p: Period, us: UserState)
    requires z.Valid() && IsState(z, us)
    ensures PeriodEnd(z, p, us) > us.start && IsState(z, Renewed(z, p, us))
    ensures z.day(PeriodEnd(z, p, us)) > z.day(us.start)
    ensures DateAt(z, PeriodEnd(z, p, us)) == AddPeriod(DateAt(z, us.start), p, Anchor(z, us))
  {
    hide Zone.Valid, FromOrdinal, Ordinal, AddPeriod;
    var d := DateAt(z, us.start);
    var next := AddPeriod(d, p, Anchor(z, us));
    OrdinalOfNumber(z.day(us.start));
    AddPeriodLater(d, p, Anchor(z, us));
    assert Ordinal(next) > z.day(us.start);
    DayMeaning(z, us.start, Ordinal(next));
    NumberOfOrdinal(next);
  }

  /** And by 61 days at most: from the first of a month to the last of the next. */
  lemma EndWithin(z: Zone, p: Period, us: UserState)
    requires z.Valid() && IsState(z, us)
    ensures z.day(PeriodEnd(z, p, us)) <= z.day(us.start) + 61
  {
    hide Zone.Valid, FromOrdinal, Ordinal, AddPeriod;
    EndIsLater(z, p, us);
    var d := DateAt(z, us.start);
    OrdinalOfNumber(z.day(us.start));
    AddPeriodWithin(d, p, Anchor(z, us));
    OrdinalOfNumber(z.day(PeriodEnd(z, p, us)));
  }

  lemma AddPeriodWithin(d: Date, p: Period, anchor: nat)
    requires IsDate(d) && anchor >= 1
    ensures Ordinal(AddPeriod(d, p, anchor)) <= Ordinal(d) + 61
  {
    hide FromOrdinal, MonthLen;
    if p != Monthly {
      OrdinalPositive(d);
      OrdinalOfNumber(Ordinal(d) + 1);
      OrdinalOfNumber(Ordinal(d) + 7);
    }
  }

  /** Rolled past now: the state of the last boundary not after it. */
  function Rolled(z: Zone, p: Period, us: UserState, now: int): UserState
    requires z.Valid() && IsState(z, us)
    decreases now - us.start
  {
    EndIsLater(z, p, us);
    if PeriodEnd(z, p, us) > now then us else Rolled(z, p, Renewed(z, p, us), now)
  }

  /** The loop of roll_period, for a user whose traffic renews or not. */
  method RollPeriod(z: Zone, p: Option<Period>, us: UserState, now: int) returns (r: UserState, moved: bool)
    requires z.Valid() && IsState(z, us)
    ensures IsState(z, r)
    ensures r == if p.Some? then Rolled(z, p.value, us, now) else us
    ensures moved <==> r != us
  {
    hide Zone.Valid, FromOrdinal, Ordinal, PeriodEnd, AddPeriod, Anchor, DateAt;
    r, moved := us, false;
    if p == None {
      return;
    }
    while true
      invariant IsState(z, r) && r.start >= us.start
      invariant Rolled(z, p.value, us, now) == Rolled(z, p.value, r, now)
      invariant moved <==> r != us
      invariant moved ==> r.start > us.start
      decreases now - r.start
    {
      var end := PeriodEnd(z, p.value, r);
      EndIsLater(z, p.value, r);
      if end > now {
        return;
      }
      r := r.(start := end, baselineUp := 0, baselineDown := 0);
      moved := true;
    }
  }

  // ---- The boundaries ----

  /** The state k boundaries on. */
  function After(z: Zone, p: Period, us: UserState, k: nat): (r: UserState)
    requires z.Valid() && IsState(z, us)
    ensures IsState(z, r)
  {
    if k == 0 then us else
      EndIsLater(z, p, After(z, p, us, k - 1));
      Renewed(z, p, After(z, p, us, k - 1))
  }

  lemma {:induction false} AfterShift(z: Zone, p: Period, us: UserState, k: nat)
    requires z.Valid() && IsState(z, us) && IsState(z, Renewed(z, p, us))
    ensures After(z, p, Renewed(z, p, us), k) == After(z, p, us, k + 1)
  {
    hide Zone.Valid, FromOrdinal, Ordinal, PeriodEnd, AddPeriod, Anchor, DateAt;
    if k > 0 { AfterShift(z, p, us, k - 1); }
  }

  lemma {:induction false} BoundariesIncrease(z: Zone, p: Period, us: UserState, j: nat, k: nat)
    requires z.Valid() && IsState(z, us) && j < k
    ensures After(z, p, us, j).start < After(z, p, us, k).start
    decreases k
  {
    hide Zone.Valid, FromOrdinal, Ordinal, PeriodEnd, AddPeriod, Anchor, DateAt;
    EndIsLater(z, p, After(z, p, us, k - 1));
    if j < k - 1 { BoundariesIncrease(z, p, us, j, k - 1); }
  }

  /** Rolling stops at the boundary k exactly when that is the last one not after now. */
  lemma {:induction false} RolledMeaning(z: Zone, p: Period, us: UserState, now: int, k: nat)
    requires z.Valid() && IsState(z, us) && us.start <= now
    ensures After(z, p, us, k).start <= now < After(z, p, us, k + 1).start
            <==> Rolled(z, p, us, now).start == After(z, p, us, k).start
    ensures After(z, p, us, k).start <= now < After(z, p, us, k + 1).start ==>
      Rolled(z, p, us, now) == After(z, p, us, k)
    decreases now - us.start
  {
    hide Zone.Valid, FromOrdinal, Ordinal, PeriodEnd, AddPeriod, Anchor, DateAt;
    EndIsLater(z, p, us);
    var next := Renewed(z, p, us);
    assert After(z, p, us, 1) == next;
    if next.start > now {
      if k > 0 {
        BoundariesIncrease(z, p, us, 0, k);
        if k > 1 { BoundariesIncrease(z, p, us, 1, k); }
      }
    } else if k == 0 {
      RolledNotBefore(z, p, next, now);
    } else {
      RolledMeaning(z, p, next, now, k - 1);
      AfterShift(z, p, us, k - 1);
      AfterShift(z, p, us, k);
    }
  }

  lemma {:induction false} RolledNotBefore(z: Zone, p: Period, us: UserState, now: int)
    requires z.Valid() && IsState(z, us)
    ensures Rolled(z, p, us, now).start >= us.start && IsState(z, Rolled(z, p, us, now))
    ensures us.start <= now ==> Rolled(z, p, us, now).start <= now
    ensures PeriodEnd(z, p, Rolled(z, p, us, now)) > now
    decreases now - us.start
  {
    hide Zone.Valid, FromOrdinal, Ordinal, PeriodEnd, AddPeriod, Anchor, DateAt;
    EndIsLater(z, p, us);
    if PeriodEnd(z, p, us) <= now {
      RolledNotBefore(z, p, Renewed(z, p, us), now);
    }
  }

  /** Rolling to one time and then to a later one is rolling to the later one: a copy rolled for
      a look agrees with the state rolled and kept. */
  lemma {:induction false} RollingIsPathIndependent(z: Zone, p: Period, us: UserState, t1: int, t2: int)
    requires z.Valid() && IsState(z, us) && t1 <= t2
    ensures IsState(z, Rolled(z, p, us, t1))
    ensures Rolled(z, p, Rolled(z, p, us, t1), t2) == Rolled(z, p, us, t2)
    decreases t1 - us.start
  {
    hide Zone.Valid, FromOrdinal, Ordinal, PeriodEnd, AddPeriod, Anchor, DateAt;
    EndIsLater(z, p, us);
    if PeriodEnd(z, p, us) <= t1 {
      RollingIsPathIndependent(z, p, Renewed(z, p, us), t1, t2);
    }
  }

  // ---- The days of the boundaries ----

  lemma AddMonth(d: Date, anchor: nat)
    requires IsDate(d) && anchor >= 1
    ensures var r := AddPeriod(d, Monthly, anchor);
            MonthIndex(r) == MonthIndex(d) + 1 && r.day == Min(anchor, MonthLen(r.year, r.month))
  {}

  /** With an anchor day, the k-th monthly boundary is on it, or on the last day of a month too
      short for it: of the k-th month after the start's. */
  lemma {:induction false} MonthlyBoundary(z: Zone, us: UserState, k: nat)
    requires z.Valid() && IsState(z, us) && us.anchor.Some? && k >= 1
    ensures var d := DateAt(z, After(z, Monthly, us, k).start);
            MonthIndex(d) == MonthIndex(DateAt(z, us.start)) + k
            && d.day == Min(us.anchor.value, MonthLen(d.year, d.month))
            && After(z, Monthly, us, k).anchor == us.anchor
            && After(z, Monthly, us, k).start == z.midnight(Ordinal(d))
    decreases k
  {
    hide Zone.Valid, FromOrdinal, Ordinal, AddPeriod, MonthLen, DateAt;
    var before := After(z, Monthly, us, k - 1);
    EndIsLater(z, Monthly, before);
    AddMonth(DateAt(z, before.start), us.anchor.value);
    if k > 1 {
      MonthlyBoundary(z, us, k - 1);
    }
    DayMeaning(z, After(z, Monthly, us, k).start, 0);
  }

  /** The k-th daily or weekly boundary is that many days or weeks on. */
  lemma {:induction false} DailyBoundary(z: Zone, p: Period, us: UserState, k: nat)
    requires z.Valid() && IsState(z, us) && p != Monthly && k >= 1
    ensures After(z, p, us, k).start == z.midnight(z.day(us.start) + k * if p == Daily then 1 else 7)
    decreases k
  {
    hide Zone.Valid, FromOrdinal, Ordinal;
    var step := if p == Daily then 1 else 7;
    var before := After(z, p, us, k - 1);
    var d := DateAt(z, before.start);
    OrdinalOfNumber(z.day(before.start));
    OrdinalOfNumber(Ordinal(d) + 1);
    OrdinalOfNumber(Ordinal(d) + 7);
    assert After(z, p, us, k).start == z.midnight(z.day(before.start) + step);
    assert k * step == (k - 1) * step + step;
    if k > 1 {
      DailyBoundary(z, p, us, k - 1);
      DayMeaning(z, before.start, z.day(us.start) + (k - 1) * step);
    }
  }

  // ---- The renewals, by the calendar ----

  /** The midnights on which traffic that began at from renews: every day's, every seventh day's, or
      in every later month that of the day of the month, or of the last day of a month without it. */
  predicate Renewal(z: Zone, p: Period, day: nat, from: int, t: int) {
    z.day(from) >= 1 && z.day(t) > z.day(from) && t == z.midnight(z.day(t))
    && match p
       case Daily => true
       case Weekly => (z.day(t) - z.day(from)) % 7 == 0
       case Monthly => MonthIndex(DateAt(z, t)) > MonthIndex(DateAt(z, from)) && IsDue(DateAt(z, t), day)
  }

  predicate IsDue(d: Date, day: nat) {
    d.day == day || (d.day < day && d.day == MonthLen(d.year, d.month))
  }

  /** The last of them not after now; from itself, if there is none yet. */
  ghost predicate LastRenewal(z: Zone, p: Period, day: nat, from: int, now: int, t: int) {
    t <= now && (t == from || Renewal(z, p, day, from, t))
    && forall r: int :: r <= now && Renewal(z, p, day, from, r) ==> r <= t
  }

  /** No two days of a month are due. */
  lemma OneDue(d: Date, e: Date, day: nat)
    requires IsDate(d) && IsDate(e) && IsDue(d, day) && IsDue(e, day) && MonthIndex(d) == MonthIndex(e)
    ensures d == e
  {}

  /** A midnight is later than another exactly when its date is. */
  lemma Midnights(z: Zone, s: int, t: int)
    requires z.Valid() && z.day(s) >= 1 && z.day(t) >= 1
    requires s == z.midnight(z.day(s)) && t == z.midnight(z.day(t))
    ensures s < t <==> z.day(s) < z.day(t)
    ensures s < t <==> Earlier(DateAt(z, s), DateAt(z, t))
  {
    hide Zone.Valid, FromOrdinal, Ordinal, Earlier;
    DayMeaning(z, s, z.day(t));
    OrdinalOfNumber(z.day(s));
    OrdinalOfNumber(z.day(t));
    OrdinalMonotone(DateAt(z, s), DateAt(z, t));
  }

  lemma EndIsMidnight(z: Zone, p: Period, us: UserState)
    requires z.Valid() && IsState(z, us)
    ensures PeriodEnd(z, p, us) == z.midnight(z.day(PeriodEnd(z, p, us)))
  {
    hide Zone.Valid, AddPeriod, Ordinal, FromOrdinal;
    DayMeaning(z, 0, Ordinal(AddPeriod(DateAt(z, us.start), p, Anchor(z, us))));
  }

  /** A period ends on a renewal, the first after it began. */
  lemma EndRenews(z: Zone, p: Period, us: UserState, r: int)
    requires z.Valid() && IsState(z, us) && us.anchor.Some?
    ensures Renewal(z, p, us.anchor.value, us.start, PeriodEnd(z, p, us))
    ensures Renewal(z, p, us.anchor.value, us.start, r) ==> r >= PeriodEnd(z, p, us)
  {
    hide Zone.Valid, FromOrdinal, Ordinal, PeriodEnd, MonthLen, AddPeriod, DateAt, IsDue;
    var end, day := PeriodEnd(z, p, us), us.anchor.value;
    EndIsLater(z, p, us);
    EndIsMidnight(z, p, us);
    if Renewal(z, p, day, us.start, r) { Midnights(z, r, end); }
    if p == Monthly {
      AddMonth(DateAt(z, us.start), day);
      DueMeaning(DateAt(z, end), day);
      if Renewal(z, p, day, us.start, r) && MonthIndex(DateAt(z, r)) <= MonthIndex(DateAt(z, end)) {
        OneDue(DateAt(z, r), DateAt(z, end), day);
      }
    } else {
      EndStep(z, p, us);
      if p == Weekly && Renewal(z, p, day, us.start, r) { Weeks(z.day(r) - z.day(us.start)); }
    }
  }

  lemma DueMeaning(d: Date, day: nat)
    requires IsDate(d) && day >= 1 && d.day == Min(day, MonthLen(d.year, d.month))
    ensures IsDue(d, day)
  {}

  lemma Weeks(n: int)
    requires n > 0 && n % 7 == 0
    ensures n >= 7
  {}

  lemma EndStep(z: Zone, p: Period, us: UserState)
    requires z.Valid() && IsState(z, us) && p != Monthly
    ensures z.day(PeriodEnd(z, p, us)) == z.day(us.start) + if p == Daily then 1 else 7
  {
    hide Zone.Valid, FromOrdinal, Ordinal;
    var n := z.day(us.start);
    OrdinalOfNumber(n);
    OrdinalOfNumber(n + 1);
    OrdinalOfNumber(n + 7);
    DayMeaning(z, 0, n + 1);
    DayMeaning(z, 0, n + 7);
  }

  /** What renews from a renewal is what renews after it. */
  lemma RenewalsOn(z: Zone, p: Period, day: nat, from: int, e: int, t: int)
    requires z.Valid() && Renewal(z, p, day, from, e)
    ensures Renewal(z, p, day, e, t) <==> Renewal(z, p, day, from, t) && t > e
  {
    hide Zone.Valid, FromOrdinal, DateAt, IsDue;
    if z.day(t) >= 1 && t == z.midnight(z.day(t)) {
      Midnights(z, e, t);
      if p == Monthly && IsDue(DateAt(z, t), day) && MonthIndex(DateAt(z, t)) == MonthIndex(DateAt(z, e)) {
        OneDue(DateAt(z, t), DateAt(z, e), day);
      }
      if p == Weekly { WeeksOn(z.day(from), z.day(e), z.day(t)); }
    }
  }

  lemma WeeksOn(a: int, b: int, c: int)
    requires (b - a) % 7 == 0
    ensures (c - b) % 7 == 0 <==> (c - a) % 7 == 0
  {}

  /** Rolling a period that began on a renewal leaves it beginning on the last one. */
  lemma {:induction false} RolledRenews(z: Zone, p: Period, us: UserState, from: int, now: int)
    requires z.Valid() && IsState(z, us) && us.anchor.Some? && us.start <= now
    requires us.start == from || Renewal(z, p, us.anchor.value, from, us.start)
    ensures LastRenewal(z, p, us.anchor.value, from, now, Rolled(z, p, us, now).start)
    ensures Rolled(z, p, us, now).anchor == us.anchor
    decreases now - us.start
  {
    hide Zone.Valid, PeriodEnd, Renewal;
    var day, end := us.anchor.value, PeriodEnd(z, p, us);
    EndIsLater(z, p, us);
    EndRenews(z, p, us, end);
    if us.start != from { RenewalsOn(z, p, day, from, us.start, end); }
    if end <= now {
      RolledRenews(z, p, Renewed(z, p, us), from, now);
    } else {
      forall r: int | r <= now && Renewal(z, p, day, from, r) ensures r <= us.start {
        EndRenews(z, p, us, r);
        if us.start != from { RenewalsOn(z, p, day, from, us.start, r); }
      }
    }
  }

  /** Without an anchor the day only goes down: each boundary is on the day of the one before, or
      the last of a shorter month. */
  lemma {:induction false} UnanchoredBoundary(z: Zone, us: UserState, k: nat)
    requires z.Valid() && IsState(z, us) && us.anchor == None && k >= 1
    ensures var before, d := DateAt(z, After(z, Monthly, us, k - 1).start), DateAt(z, After(z, Monthly, us, k).start);
            MonthIndex(d) == MonthIndex(DateAt(z, us.start)) + k
            && d.day == Min(before.day, MonthLen(d.year, d.month)) && d.day <= DateAt(z, us.start).day
            && After(z, Monthly, us, k).anchor == None
    decreases k
  {
    hide Zone.Valid, FromOrdinal, Ordinal, AddPeriod, MonthLen, DateAt;
    var before := After(z, Monthly, us, k - 1);
    EndIsLater(z, Monthly, before);
    AddMonth(DateAt(z, before.start), Anchor(z, before));
    if k > 1 {
      UnanchoredBoundary(z, us, k - 1);
    }
  }

  /** The days of the month of this index. */
  function LengthOf(index: int): nat
    requires index >= 1
  {
    MonthLen((index - 1) / 12, (index - 1) % 12 + 1)
  }

  lemma LengthOfDate(d: Date)
    requires IsDate(d)
    ensures MonthIndex(d) >= 1 && LengthOf(MonthIndex(d)) == MonthLen(d.year, d.month)
  {
    assert (MonthIndex(d) - 1) / 12 == d.year;
  }

  /** So an unanchored period keeps its day, as an anchored one would, exactly until the first
      month too short for the day it started on has come and gone. */
  lemma {:induction false} UnanchoredKeepsDay(z: Zone, us: UserState, k: nat)
    requires z.Valid() && IsState(z, us) && us.anchor == None && k >= 1
    ensures var first, month := DateAt(z, us.start).day, MonthIndex(DateAt(z, us.start));
            month >= 1
            && (DateAt(z, After(z, Monthly, us, k).start).day == first
                <==> forall m :: month < m <= month + k ==> LengthOf(m) >= first)
    decreases k
  {
    hide Zone.Valid, FromOrdinal, Ordinal, AddPeriod, MonthLen, DateAt, PeriodEnd, After, LengthOf;
    UnanchoredBoundary(z, us, k);
    LengthOfDate(DateAt(z, us.start));
    LengthOfDate(DateAt(z, After(z, Monthly, us, k).start));
    if k > 1 {
      UnanchoredKeepsDay(z, us, k - 1);
      UnanchoredBoundary(z, us, k - 1);
    } else {
      NoneAfter(z, us);
    }
  }

  lemma NoneAfter(z: Zone, us: UserState)
    requires z.Valid() && IsState(z, us)
    ensures After(z, Monthly, us, 0) == us
  {}

  /** One that started on 31 January 2023 renews on the 28th in every month from then on. */
  lemma {:induction false} UnanchoredDrifts(z: Zone, us: UserState, k: nat)
    requires z.Valid() && IsState(z, us) && us.anchor == None && DateAt(z, us.start) == Date(2023, 1, 31) && k >= 1
    ensures var d := DateAt(z, After(z, Monthly, us, k).start);
            d.day == 28 && MonthIndex(d) == MonthIndex(Date(2023, 1, 31)) + k
    decreases k
  {
    hide Zone.Valid, FromOrdinal, Ordinal, AddPeriod, DateAt, PeriodEnd, After;
    UnanchoredBoundary(z, us, k);
    if k > 1 {
      UnanchoredDrifts(z, us, k - 1);
    } else {
      NoneAfter(z, us);
      assert !Leap(2023);
    }
  }
}
