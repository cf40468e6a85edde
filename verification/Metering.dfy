/** Traffic accounting over any run (inbound_policy.py and the manager's tick and reset): what a
    period has used, from the collector's daily totals and a baseline, against a log of all the
    traffic there was. */
module Metering {
  import opened Wrappers
  import opened Arithmetic
  import opened Calendar
  import opened Periods

  datatype Bytes = Bytes(up: nat, down: nat)

  function Plus(a: Bytes, b: Bytes): Bytes { Bytes(a.up + b.up, a.down + b.down) }

  const ZERO := Bytes(0, 0)

  /** One day's counters of the user, in the collector's file. */
  datatype Bucket = Bucket(day: int, bytes: Bytes)

  /** Traffic that was counted, and when. */
  datatype Event = Event(time: int, bytes: Bytes)

  /** A run of the collector: XRay did not answer, or the user's counters, if it has any. */
  datatype Reading = Unanswered | Counted(bytes: Option<Bytes>)

  function Events(now: int, reading: Reading): seq<Event> {
    if reading.Counted? && reading.bytes.Some? then [Event(now, reading.bytes.value)] else []
  }

  // ---- The collector's file ----

  predicate DistinctDays(days: seq<Bucket>) {
    forall i, j :: 0 <= i < j < |days| ==> days[i].day != days[j].day
  }

  function Lookup(days: seq<Bucket>, day: int): Bytes {
    if days == [] then ZERO
    else if days[|days| - 1].day == day then days[|days| - 1].bytes
    else Lookup(days[..|days| - 1], day)
  }

  function SumFrom(days: seq<Bucket>, first: int): Bytes {
    if days == [] then ZERO
    else Plus(SumFrom(days[..|days| - 1], first),
              if days[|days| - 1].day >= first then days[|days| - 1].bytes else ZERO)
  }

  /** The day's bucket with these bytes more, made if it is not there. */
  function Count(days: seq<Bucket>, day: int, bytes: Bytes): seq<Bucket> {
    if days == [] then [Bucket(day, bytes)]
    else if days[|days| - 1].day == day then days[..|days| - 1] + [Bucket(day, Plus(days[|days| - 1].bytes, bytes))]
    else Count(days[..|days| - 1], day, bytes) + [days[|days| - 1]]
  }

  /** The first day the collector keeps: of 366 days ago, where the clocks show universal time. */
  function Cutoff(now: int): int { UtcDay(now - 366 * 86400) }

  /** The buckets of day first and later. */
  function Kept(days: seq<Bucket>, first: int): seq<Bucket> {
    if days == [] then []
    else Kept(days[..|days| - 1], first) + if days[|days| - 1].day >= first then [days[|days| - 1]] else []
  }

  lemma {:induction false} KeptSums(days: seq<Bucket>, cutoff: int, first: int)
    ensures SumFrom(Kept(days, cutoff), first) == SumFrom(days, Max(first, cutoff))
    decreases |days|
  {
    hide SumFrom, Lookup, Plus;
    if days == [] {
      NoBuckets(first);
      NoBuckets(Max(first, cutoff));
    } else {
      var rest, last := days[..|days| - 1], days[|days| - 1];
      KeptSums(rest, cutoff, first);
      LastBucket(days, Max(first, cutoff));
      ZeroPlus(SumFrom(rest, Max(first, cutoff)));
      var kept := Kept(days, cutoff);
      if last.day >= cutoff {
        LastBucket(kept, first);
        assert kept[..|kept| - 1] == Kept(rest, cutoff);
      } else {
        assert kept == Kept(rest, cutoff);
      }
    }
  }

  lemma {:induction false} KeptDays(days: seq<Bucket>, cutoff: int)
    requires DistinctDays(days)
    ensures DistinctDays(Kept(days, cutoff))
    ensures forall i :: 0 <= i < |Kept(days, cutoff)| ==> Kept(days, cutoff)[i] in days
    decreases |days|
  {
    if days != [] {
      var rest, last := days[..|days| - 1], days[|days| - 1];
      DistinctPrefix(days);
      KeptDays(rest, cutoff);
      var kept := Kept(rest, cutoff);
      forall i | 0 <= i < |kept| ensures kept[i] in days && kept[i].day != last.day {
        var j :| 0 <= j < |rest| && rest[j] == kept[i];
        assert days[j] == kept[i];
      }
    }
  }

  lemma {:induction false} CountSums(days: seq<Bucket>, day: int, bytes: Bytes, first: int)
    ensures SumFrom(Count(days, day, bytes), first) == Plus(SumFrom(days, first), if day >= first then bytes else ZERO)
    decreases |days|
  {
    var counted := Count(days, day, bytes);
    if days != [] {
      var n := |days| - 1;
      if days[n].day == day {
        assert counted[..n] == days[..n];
      } else {
        CountSums(days[..n], day, bytes, first);
        assert counted[..|counted| - 1] == Count(days[..n], day, bytes);
      }
    } else {
      assert counted[..0] == [];
    }
  }

  lemma {:induction false} CountDays(days: seq<Bucket>, day: int, bytes: Bytes)
    requires DistinctDays(days)
    ensures DistinctDays(Count(days, day, bytes))
    ensures forall i :: 0 <= i < |Count(days, day, bytes)| ==>
              Count(days, day, bytes)[i].day == day
              || exists j :: 0 <= j < |days| && days[j].day == Count(days, day, bytes)[i].day
    decreases |days|
  {
    if days != [] {
      var n := |days| - 1;
      if days[n].day != day {
        CountDays(days[..n], day, bytes);
        var fewer := Count(days[..n], day, bytes);
        forall i | 0 <= i < |fewer|
          ensures fewer[i].day != days[n].day
            && (fewer[i].day == day || exists j :: 0 <= j < |days| && days[j].day == fewer[i].day)
        {
          if fewer[i].day != day {
            var j :| 0 <= j < |days[..n]| && days[..n][j].day == fewer[i].day;
            assert days[j].day == fewer[i].day;
          }
        }
        assert days[n].day == days[n].day;
      }
    }
  }

  /** The day's own bytes are what is there from it on, less what is from the next. */
  lemma {:induction false} LookupIsDifference(days: seq<Bucket>, day: int)
    requires DistinctDays(days)
    ensures SumFrom(days, day) == Plus(Lookup(days, day), SumFrom(days, day + 1))
    decreases |days|
  {
    hide SumFrom, Lookup, DistinctDays;
    if days == [] {
      NoBuckets(day);
      NoBuckets(day + 1);
    } else {
      var rest, last := days[..|days| - 1], days[|days| - 1];
      DistinctPrefix(days);
      LookupIsDifference(rest, day);
      LastBucket(days, day);
      LastBucket(days, day + 1);
      if last.day == day {
        LookupNone(rest, day);
        assert SumFrom(rest, day) == SumFrom(rest, day + 1);
      } else if last.day > day {
        assert SumFrom(days, day + 1) == Plus(SumFrom(rest, day + 1), last.bytes);
      }
    }
  }

  lemma DistinctPrefix(days: seq<Bucket>)
    requires days != [] && DistinctDays(days)
    ensures DistinctDays(days[..|days| - 1])
    ensures var rest := days[..|days| - 1]; forall i :: 0 <= i < |rest| ==> rest[i].day != days[|days| - 1].day
  {}

  lemma NoBuckets(first: int)
    ensures SumFrom([], first) == ZERO && Lookup([], first) == ZERO
  {}

  lemma LastBucket(days: seq<Bucket>, first: int)
    requires days != []
    ensures SumFrom(days, first)
      == Plus(SumFrom(days[..|days| - 1], first),
              if days[|days| - 1].day >= first then days[|days| - 1].bytes else ZERO)
    ensures Lookup(days, first) == if days[|days| - 1].day == first then days[|days| - 1].bytes
                                   else Lookup(days[..|days| - 1], first)
  {}

  lemma {:induction false} LookupNone(days: seq<Bucket>, day: int)
    requires forall i :: 0 <= i < |days| ==> days[i].day != day
    ensures Lookup(days, day) == ZERO
    decreases |days|
  {
    if days != [] { LookupNone(days[..|days| - 1], day); }
  }

  // ---- The log ----

  function Total(log: seq<Event>): Bytes {
    if log == [] then ZERO else Plus(Total(log[..|log| - 1]), log[|log| - 1].bytes)
  }

  /** The traffic of day first and later. */
  function LogFrom(z: Zone, log: seq<Event>, first: int): Bytes {
    if log == [] then ZERO
    else Plus(LogFrom(z, log[..|log| - 1], first),
              if z.day(log[|log| - 1].time) >= first then log[|log| - 1].bytes else ZERO)
  }

  lemma {:induction false} LogConcat(z: Zone, a: seq<Event>, b: seq<Event>, first: int)
    ensures LogFrom(z, a + b, first) == Plus(LogFrom(z, a, first), LogFrom(z, b, first))
    ensures Total(a + b) == Plus(Total(a), Total(b))
    decreases |b|
  {
    if b == [] {
      assert a + b == a;
    } else {
      var n := |b| - 1;
      assert (a + b)[..|a| + n] == a + b[..n];
      LogConcat(z, a, b[..n], first);
    }
  }

  lemma {:induction false} LogAllFrom(z: Zone, log: seq<Event>, first: int)
    requires forall i :: 0 <= i < |log| ==> z.day(log[i].time) >= first
    ensures LogFrom(z, log, first) == Total(log)
    decreases |log|
  {
    if log != [] { LogAllFrom(z, log[..|log| - 1], first); }
  }

  lemma {:induction false} LogNoneFrom(z: Zone, log: seq<Event>, first: int)
    requires forall i :: 0 <= i < |log| ==> z.day(log[i].time) < first
    ensures LogFrom(z, log, first) == ZERO
    decreases |log|
  {
    if log != [] { LogNoneFrom(z, log[..|log| - 1], first); }
  }

  predicate InOrder(log: seq<Event>) {
    forall i, j :: 0 <= i <= j < |log| ==> log[i].time <= log[j].time
  }

  /** How much of the log comes before a time. */
  function CountBefore(log: seq<Event>, t: int): (n: nat)
    ensures n <= |log|
  {
    if log == [] then 0
    else if log[|log| - 1].time < t then |log|
    else CountBefore(log[..|log| - 1], t)
  }

  lemma {:induction false} CountBeforeSplits(log: seq<Event>, t: int)
    requires InOrder(log)
    ensures forall i :: 0 <= i < CountBefore(log, t) ==> log[i].time < t
    ensures forall i :: CountBefore(log, t) <= i < |log| ==> log[i].time >= t
    decreases |log|
  {
    if log != [] && log[|log| - 1].time >= t {
      CountBeforeSplits(log[..|log| - 1], t);
    }
  }

  lemma {:induction false} CountBeforeAtLeast(log: seq<Event>, t: int, mark: nat)
    requires mark <= |log| && forall i :: 0 <= i < mark ==> log[i].time < t
    ensures CountBefore(log, t) >= mark
    decreases |log|
  {
    if log != [] && log[|log| - 1].time >= t {
      CountBeforeAtLeast(log[..|log| - 1], t, mark);
    }
  }

  // ---- What a state says against the log ----

  function NonNegative(x: int): nat { if x < 0 then 0 else x }

  /** period_traffic of a state that has a start. */
  function Used(z: Zone, days: seq<Bucket>, us: UserState): Bytes {
    var s := SumFrom(days, z.day(us.start));
    Bytes(NonNegative(s.up - us.baselineUp), NonNegative(s.down - us.baselineDown))
  }

  method PeriodTraffic(z: Zone, days: seq<Bucket>, us: Option<UserState>) returns (r: Bytes)
    ensures r == if us.Some? then Used(z, days, us.value) else ZERO
  {
    if us == None {
      return ZERO;
    }
    var first := z.day(us.value.start);
    var up, down := 0, 0;
    for i := 0 to |days|
      invariant up == SumFrom(days[..i], first).up && down == SumFrom(days[..i], first).down
    {
      assert days[..i + 1][..i] == days[..i];
      if days[i].day >= first {
        up := up + days[i].bytes.up;
        down := down + days[i].bytes.down;
      }
    }
    assert days[..|days|] == days;
    r := Bytes(NonNegative(up - us.value.baselineUp), NonNegative(down - us.value.baselineDown));
  }

  /** us measures exactly the log from mark on: what was there before is its baseline, and lies
      before the end of the first day; nothing after is of an earlier day. */
  ghost predicate Measures(z: Zone, log: seq<Event>, us: UserState, mark: nat) {
    IsState(z, us) && mark <= |log|
    && LogFrom(z, log[..mark], z.day(us.start)) == Bytes(us.baselineUp, us.baselineDown)
    && (forall i :: 0 <= i < mark ==> z.day(log[i].time) <= z.day(us.start))
    && (forall i :: mark <= i < |log| ==> z.day(log[i].time) >= z.day(us.start))
  }

  /** The collector's days are the log's, but for what was before the first day it kept. */
  ghost predicate Collected(z: Zone, days: seq<Bucket>, log: seq<Event>, kept: int) {
    DistinctDays(days) && forall first: int :: SumFrom(days, first) == LogFrom(z, log, Max(first, kept))
  }

  /** What a state shows: the traffic since the mark, exactly, while the day it starts on is kept;
      then only what is on days that are, less the baseline still. */
  function Shown(z: Zone, log: seq<Event>, us: UserState, mark: nat, kept: int): Bytes
    requires mark <= |log|
  {
    if kept <= z.day(us.start) then Total(log[mark..])
    else
      var left := LogFrom(z, log[mark..], kept);
      Bytes(NonNegative(left.up - us.baselineUp), NonNegative(left.down - us.baselineDown))
  }

  /** The traffic before day first. */
  function LogBefore(z: Zone, log: seq<Event>, first: int): Bytes {
    if log == [] then ZERO
    else Plus(LogBefore(z, log[..|log| - 1], first),
              if z.day(log[|log| - 1].time) < first then log[|log| - 1].bytes else ZERO)
  }

  lemma {:induction false} LogSplits(z: Zone, log: seq<Event>, first: int)
    ensures Total(log) == Plus(LogBefore(z, log, first), LogFrom(z, log, first))
    decreases |log|
  {
    hide Total, LogBefore, LogFrom, Plus;
    if log == [] {
      ZeroPlus(ZERO);
      NoEvents(z, first);
    } else {
      var rest := log[..|log| - 1];
      LogSplits(z, rest, first);
      var early := LastEvent(z, log, first);
      PlusEither(LogBefore(z, rest, first), LogFrom(z, rest, first), log[|log| - 1].bytes);
    }
  }

  lemma PlusEither(a: Bytes, b: Bytes, c: Bytes)
    ensures Plus(Plus(a, b), c) == Plus(Plus(a, c), Plus(b, ZERO)) == Plus(Plus(a, ZERO), Plus(b, c))
  {}

  lemma ZeroPlus(b: Bytes)
    ensures Plus(ZERO, b) == b == Plus(b, ZERO)
  {}

  lemma NoEvents(z: Zone, first: int)
    ensures Total([]) == LogBefore(z, [], first) == LogFrom(z, [], first) == ZERO
  {}

  lemma LastEvent(z: Zone, log: seq<Event>, first: int) returns (early: bool)
    requires log != []
    ensures var rest, last := log[..|log| - 1], log[|log| - 1];
            Total(log) == Plus(Total(rest), last.bytes)
            && LogBefore(z, log, first) == Plus(LogBefore(z, rest, first), if early then last.bytes else ZERO)
            && LogFrom(z, log, first) == Plus(LogFrom(z, rest, first), if early then ZERO else last.bytes)
  {
    hide Plus;
    early := z.day(log[|log| - 1].time) < first;
  }

  /** Nothing since the mark was on a day that is dropped, and where the first day has a baseline
      there was nothing since at all. */
  predicate NothingLost(z: Zone, since: seq<Event>, us: UserState, kept: int) {
    LogBefore(z, since, kept) == ZERO
    && (us.baselineUp == 0 || Total(since).up == 0) && (us.baselineDown == 0 || Total(since).down == 0)
  }

  lemma UsedIsShown(z: Zone, days: seq<Bucket>, log: seq<Event>, us: UserState, mark: nat, kept: int)
    requires Collected(z, days, log, kept) && Measures(z, log, us, mark)
    ensures Used(z, days, us) == Shown(z, log, us, mark, kept)
  {
    hide Collected, SumFrom, LogFrom, Total;
    var first := z.day(us.start);
    CollectedFrom(z, days, log, kept, first);
    assert log == log[..mark] + log[mark..];
    LogConcat(z, log[..mark], log[mark..], Max(first, kept));
    if kept <= first {
      LogAllFrom(z, log[mark..], first);
    } else {
      LogNoneFrom(z, log[..mark], kept);
    }
  }

  /** What is shown is exactly the traffic since the mark while the first day is kept, and after
      that exactly when nothing is lost; it is never more. */
  lemma UsedIsExact(z: Zone, days: seq<Bucket>, log: seq<Event>, us: UserState, mark: nat, kept: int)
    requires Collected(z, days, log, kept) && Measures(z, log, us, mark)
    ensures Used(z, days, us) == Total(log[mark..])
       <==> kept <= z.day(us.start) || NothingLost(z, log[mark..], us, kept)
    ensures Used(z, days, us).up <= Total(log[mark..]).up && Used(z, days, us).down <= Total(log[mark..]).down
    ensures kept <= z.day(us.start) ==>
      var sum := SumFrom(days, z.day(us.start)); sum.up >= us.baselineUp && sum.down >= us.baselineDown
  {
    hide Collected, SumFrom, LogFrom, LogBefore, Total;
    UsedIsShown(z, days, log, us, mark, kept);
    LogSplits(z, log[mark..], kept);
    CollectedFrom(z, days, log, kept, z.day(us.start));
    assert log == log[..mark] + log[mark..];
    LogConcat(z, log[..mark], log[mark..], z.day(us.start));
  }

  lemma CollectedFrom(z: Zone, days: seq<Bucket>, log: seq<Event>, kept: int, first: int)
    requires Collected(z, days, log, kept)
    ensures SumFrom(days, first) == LogFrom(z, log, Max(first, kept))
  {
    hide SumFrom, LogFrom, DistinctDays;
  }

  /** Traffic counted into its day and logged: the collector's days and the log still agree. */
  lemma CountCollected(z: Zone, days: seq<Bucket>, log: seq<Event>, kept: int, e: Event)
    requires Collected(z, days, log, kept) && kept <= z.day(e.time)
    ensures Collected(z, Count(days, z.day(e.time), e.bytes), log + [e], kept)
  {
    hide SumFrom, Count, DistinctDays;
    var day := z.day(e.time);
    CountDays(days, day, e.bytes);
    assert (log + [e])[..|log|] == log;
    forall first: int
      ensures SumFrom(Count(days, day, e.bytes), first) == LogFrom(z, log + [e], Max(first, kept))
    {
      CountSums(days, day, e.bytes, first);
      assert SumFrom(days, first) == LogFrom(z, log, Max(first, kept));
    }
  }

  /** Days dropped: the others still agree. */
  lemma KeptCollected(z: Zone, days: seq<Bucket>, log: seq<Event>, kept: int, cutoff: int)
    requires Collected(z, days, log, kept) && kept <= cutoff
    ensures Collected(z, Kept(days, cutoff), log, cutoff)
  {
    hide SumFrom, Kept, DistinctDays, LogFrom;
    KeptDays(days, cutoff);
    forall first: int ensures SumFrom(Kept(days, cutoff), first) == LogFrom(z, log, Max(first, cutoff)) {
      KeptSums(days, cutoff, first);
      assert SumFrom(days, Max(first, cutoff)) == LogFrom(z, log, Max(Max(first, cutoff), kept));
    }
  }

  lemma CutoffLater(s: int, t: int)
    requires s <= t
    ensures Cutoff(s) <= Cutoff(t)
  {}

  /** Today is long after what is dropped. */
  lemma CutoffPast(z: Zone, now: int)
    requires z.NearUtc()
    ensures Cutoff(now) <= z.day(now) - 365
  {
    assert (now - 366 * 86400) / 86400 == now / 86400 - 366;
  }

  /** A period that has not ended began on a day that is kept. */
  lemma CurrentKept(z: Zone, p: Period, us: UserState, now: int)
    requires z.Valid() && z.NearUtc() && IsState(z, us) && PeriodEnd(z, p, us) > now
    ensures Cutoff(now) <= z.day(us.start) - 305
  {
    hide Zone.Valid, Zone.NearUtc, PeriodEnd, Cutoff;
    EndWithin(z, p, us);
    CutoffPast(z, now);
    EndIsMidnight(z, p, us);
    DayMeaning(z, now, z.day(PeriodEnd(z, p, us)));
  }

  lemma MeasuresMore(z: Zone, log: seq<Event>, us: UserState, mark: nat, e: Event)
    requires Measures(z, log, us, mark) && z.day(e.time) >= z.day(us.start)
    ensures Measures(z, log + [e], us, mark)
  {
    hide LogFrom, IsState;
    assert (log + [e])[..mark] == log[..mark];
  }

  /** A period that starts now: the day so far is the baseline. */
  function StartPeriod(z: Zone, days: seq<Bucket>, now: int): UserState
    requires z.Valid() && now > 0
  {
    var today := Lookup(days, z.day(now));
    UserState(now, today.up, today.down, Some(DateAt(z, now).day))
  }

  lemma StartMeasures(z: Zone, days: seq<Bucket>, log: seq<Event>, kept: int, now: int)
    requires z.Valid() && now > 0 && Collected(z, days, log, kept) && kept <= z.day(now)
    requires forall i :: 0 <= i < |log| ==> log[i].time <= now
    ensures Measures(z, log, StartPeriod(z, days, now), |log|)
  {
    hide Zone.Valid, FromOrdinal, SumFrom, Lookup, LogFrom, DistinctDays;
    var day := z.day(now);
    forall i | 0 <= i < |log| ensures z.day(log[i].time) <= day { DayOrder(z, log[i].time, now); }
    LogNoneFrom(z, log, day + 1);
    LookupIsDifference(days, day);
    CollectedFrom(z, days, log, kept, day);
    CollectedFrom(z, days, log, kept, day + 1);
    assert log[..|log|] == log;
    DayPositive(z, now);
    MonthDays(DateAt(z, now));
  }

  lemma DayPositive(z: Zone, t: int)
    requires z.Valid() && t >= 0
    ensures z.day(t) >= 1
  {}

  lemma MonthDays(d: Date)
    requires IsDate(d)
    ensures 1 <= d.day <= 31
  {}

  lemma DayOrder(z: Zone, s: int, t: int)
    requires z.Valid() && s <= t
    ensures z.day(s) <= z.day(t)
  {
    hide Zone.Valid;
    DayMeaning(z, s, z.day(s));
    DayMeaning(z, t, z.day(s));
  }

  /** Renewing moves the mark to the first traffic at or after the boundary: all before it is the
      closed period's or an earlier one's, all from it on the next one's. */
  lemma RenewalMeasures(z: Zone, p: Period, log: seq<Event>, us: UserState, mark: nat)
    requires z.Valid() && InOrder(log) && Measures(z, log, us, mark)
    ensures var end := PeriodEnd(z, p, us);
            mark <= CountBefore(log, end) && Measures(z, log, Renewed(z, p, us), CountBefore(log, end))
            && forall i :: 0 <= i < |log| ==> (i < CountBefore(log, end) <==> log[i].time < end)
  {
    hide Zone.Valid, PeriodEnd, CountBefore, LogFrom, InOrder, Total, FromOrdinal, Ordinal;
    EndIsLater(z, p, us);
    var end := PeriodEnd(z, p, us);
    var first, n := z.day(end), CountBefore(log, end);
    DaysAround(z, p, log, us, mark);
    CountBeforeAtLeast(log, end, mark);
    CountBeforeSplits(log, end);
    LogNoneFrom(z, log[..n], first);
  }

  /** The boundary is a midnight: traffic is before it exactly when it is of an earlier day. */
  lemma DaysAround(z: Zone, p: Period, log: seq<Event>, us: UserState, mark: nat)
    requires z.Valid() && Measures(z, log, us, mark)
    ensures var end := PeriodEnd(z, p, us);
            (forall i :: 0 <= i < |log| ==> (z.day(log[i].time) >= z.day(end) <==> log[i].time >= end))
            && (forall i :: 0 <= i < mark ==> log[i].time < end)
  {
    hide Zone.Valid, PeriodEnd, LogFrom, FromOrdinal, Ordinal;
    EndIsLater(z, p, us);
    EndIsMidnight(z, p, us);
    var end := PeriodEnd(z, p, us);
    forall i | 0 <= i < |log|
      ensures z.day(log[i].time) >= z.day(end) <==> log[i].time >= end
    {
      DayMeaning(z, log[i].time, z.day(end));
    }
  }

  /** Where the mark is after rolling. */
  function MarkAfter(z: Zone, p: Period, us: UserState, log: seq<Event>, mark: nat, now: int): nat
    requires z.Valid() && IsState(z, us)
    decreases now - us.start
  {
    EndIsLater(z, p, us);
    var end := PeriodEnd(z, p, us);
    if end > now then mark else MarkAfter(z, p, Renewed(z, p, us), log, CountBefore(log, end), now)
  }

  lemma {:induction false} RollMeasures(z: Zone, p: Period, log: seq<Event>, us: UserState, mark: nat, now: int)
    requires z.Valid() && InOrder(log) && Measures(z, log, us, mark)
    ensures var n := MarkAfter(z, p, us, log, mark, now);
            mark <= n && Measures(z, log, Rolled(z, p, us, now), n)
            && n == if PeriodEnd(z, p, us) <= now then CountBefore(log, Rolled(z, p, us, now).start) else mark
    decreases now - us.start
  {
    hide Zone.Valid, PeriodEnd;
    EndIsLater(z, p, us);
    if PeriodEnd(z, p, us) <= now {
      RenewalMeasures(z, p, log, us, mark);
      RollMeasures(z, p, log, Renewed(z, p, us), CountBefore(log, PeriodEnd(z, p, us)), now);
    }
  }

  /** Traffic that comes when the rolling is done moves no mark. */
  lemma {:induction false} MarkAfterMore(z: Zone, p: Period, us: UserState, log: seq<Event>, mark: nat, now: int,
      e: Event)
    requires z.Valid() && IsState(z, us) && now <= e.time
    ensures MarkAfter(z, p, us, log + [e], mark, now) == MarkAfter(z, p, us, log, mark, now)
    decreases now - us.start
  {
    hide Zone.Valid, PeriodEnd;
    EndIsLater(z, p, us);
    var end := PeriodEnd(z, p, us);
    if end <= now {
      assert (log + [e])[..|log|] == log;
      MarkAfterMore(z, p, Renewed(z, p, us), log, CountBefore(log, end), now, e);
    }
  }

  /** Where the k-th period on begins in the log. */
  function MarkOf(z: Zone, p: Period, us: UserState, log: seq<Event>, mark: nat, k: nat): nat
    requires z.Valid() && IsState(z, us)
  {
    if k == 0 then mark else CountBefore(log, After(z, p, us, k).start)
  }

  /** An event of the k-th period on: from its boundary up to the next. */
  predicate InPeriod(z: Zone, p: Period, us: UserState, log: seq<Event>, mark: nat, k: nat, i: nat)
    requires z.Valid() && IsState(z, us) && i < |log|
  {
    (if k == 0 then mark <= i else After(z, p, us, k).start <= log[i].time)
    && log[i].time < After(z, p, us, k + 1).start
  }

  /** What a period measures is exactly the traffic from its boundary up to the next. */
  lemma {:induction false} PeriodHolds(z: Zone, p: Period, log: seq<Event>, us: UserState, mark: nat, k: nat)
    requires z.Valid() && InOrder(log) && Measures(z, log, us, mark)
    ensures Measures(z, log, After(z, p, us, k), MarkOf(z, p, us, log, mark, k))
    ensures var m, n := MarkOf(z, p, us, log, mark, k), MarkOf(z, p, us, log, mark, k + 1);
            m <= n <= |log| && forall i :: 0 <= i < |log| ==> (m <= i < n <==> InPeriod(z, p, us, log, mark, k, i))
    decreases k
  {
    hide Zone.Valid, PeriodEnd, CountBefore, InOrder, AddPeriod, DateAt, LogFrom;
    if k > 0 {
      PeriodHolds(z, p, log, us, mark, k - 1);
      CountBeforeSplits(log, After(z, p, us, k).start);
      RenewalMeasures(z, p, log, After(z, p, us, k - 1), MarkOf(z, p, us, log, mark, k - 1));
    }
    RenewalMeasures(z, p, log, After(z, p, us, k), MarkOf(z, p, us, log, mark, k));
    CountBeforeSplits(log, After(z, p, us, k + 1).start);
  }

  /** Consecutive periods share out all the traffic: nothing is lost, nothing counted twice. */
  lemma {:induction false} PeriodsPartition(z: Zone, p: Period, log: seq<Event>, us: UserState, mark: nat, i: nat,
      k: nat)
      returns (j: nat)
    requires z.Valid() && InOrder(log) && Measures(z, log, us, mark)
    requires mark <= i < |log| && log[i].time < After(z, p, us, k + 1).start
    ensures j <= k && InPeriod(z, p, us, log, mark, j, i)
    ensures forall other: nat :: InPeriod(z, p, us, log, mark, other, i) ==> other == j
    decreases k
  {
    hide Zone.Valid, PeriodEnd, InOrder, Measures, After, IsState;
    MeasuresState(z, log, us, mark);
    if k == 0 || log[i].time >= After(z, p, us, k).start {
      j := k;
      forall other: nat | InPeriod(z, p, us, log, mark, other, i)
        ensures other == j
      {
        OnePeriod(z, p, us, log, mark, i, j, other);
      }
    } else {
      j := PeriodsPartition(z, p, log, us, mark, i, k - 1);
    }
  }

  lemma OnePeriod(z: Zone, p: Period, us: UserState, log: seq<Event>, mark: nat, i: nat, j: nat, k: nat)
    requires z.Valid() && IsState(z, us) && i < |log|
    requires InPeriod(z, p, us, log, mark, j, i) && InPeriod(z, p, us, log, mark, k, i)
    ensures j == k
  {
    hide Zone.Valid, PeriodEnd, After, IsState;
    if j + 1 < k {
      BoundariesIncrease(z, p, us, j + 1, k);
    } else if k + 1 < j {
      BoundariesIncrease(z, p, us, k + 1, j);
    }
  }

  lemma MeasuresState(z: Zone, log: seq<Event>, us: UserState, mark: nat)
    requires Measures(z, log, us, mark)
    ensures IsState(z, us) && mark <= |log|
  {}

  lemma StartsNow(z: Zone, days: seq<Bucket>, now: int)
    requires z.Valid() && now > 0
    ensures StartPeriod(z, days, now).start == now
    ensures z.day(now) >= 1 && StartPeriod(z, days, now).anchor == Some(DateAt(z, now).day)
  {}

  /** A period that has begun just now begins on the last renewal there was. */
  lemma NoRenewal(z: Zone, p: Period, us: UserState, now: int)
    requires z.Valid() && us.start == now
    ensures us.anchor.Some? ==> LastRenewal(z, p, us.anchor.value, now, now, now)
  {
    hide Zone.Valid;
    forall r: int | r <= now ensures z.day(r) <= z.day(now) { DayOrder(z, r, now); }
  }

  lemma RolledMoves(z: Zone, p: Period, us: UserState, now: int)
    requires z.Valid() && IsState(z, us)
    ensures Rolled(z, p, us, now) == us <==> PeriodEnd(z, p, us) > now
  {
    hide Zone.Valid, PeriodEnd;
    EndIsLater(z, p, us);
    if PeriodEnd(z, p, us) <= now { RolledNotBefore(z, p, Renewed(z, p, us), now); }
  }

  // ---- A user's run ----

  /** One user: the collector's days, the manager's state, and all that was ever counted. */
  class Account {
    const zone: Zone
    var period: Option<Period>
    var days: seq<Bucket>
    var user: Option<UserState>
    var clock: int
    ghost var log: seq<Event>
    /** Where the current period's traffic begins in the log. */
    ghost var mark: nat
    /** The first day the collector kept when it last ran. */
    ghost var kept: int
    /** When the traffic last started over, not by itself, and where its period began when it was
        last said when the traffic renews. */
    ghost var started: int
    ghost var from: int

    ghost predicate Valid()
      reads this
    {
      zone.Valid() && zone.NearUtc() && clock > 0 && InOrder(log)
      && (forall i :: 0 <= i < |log| ==> log[i].time <= clock)
      && Collected(zone, days, log, kept) && kept <= Cutoff(clock)
      && (user.Some? ==> Measures(zone, log, user.value, mark) && user.value.start <= clock && Renews(user.value))
    }

    /** The day of the month the traffic renews on. */
    ghost function Day(): nat
      reads this
    {
      if zone.day(started) >= 1 then DateAt(zone, started).day else 0
    }

    /** It renews on the day of the month it started, and began on a renewal. */
    ghost predicate Renews(us: UserState)
      reads this
    {
      us.anchor == Some(Day())
      && (us.start == from || (period.Some? && Renewal(zone, period.value, Day(), from, us.start)))
    }

    constructor (zone: Zone, period: Option<Period>, now: int)
      requires zone.Valid() && zone.NearUtc() && now > 0
      ensures Valid() && log == [] && user == None && clock == now && this.zone == zone && this.period == period
    {
      this.zone, this.period, clock := zone, period, now;
      days, user, log, mark, kept := [], None, [], 0, Cutoff(now);
      started, from := now, now;
    }

    /** The policy changes when the traffic renews; what was measured goes on. */
    method SetPeriod(period: Option<Period>)
      requires Valid()
      modifies this`period, this`from
      ensures Valid() && this.period == period && (user.Some? ==> from == user.value.start)
    {
      hide Zone.Valid, Zone.NearUtc, Collected, Measures, Cutoff, Renewal;
      this.period := period;
      if user.Some? {
        from := user.value.start;
      }
    }

    /** The collector counts traffic into the day it comes on, and drops days past the last 366. */
    method Collect(now: int, reading: Reading)
      requires Valid() && now >= clock
      modifies this`days, this`clock, this`log, this`kept
      ensures Valid() && log == old(log) + Events(now, reading) && clock == now
      ensures kept == if reading.Counted? then Cutoff(now) else old(kept)
    {
      hide Zone.Valid, Zone.NearUtc, Collected, Measures, Count, Kept, Cutoff, Renewal;
      CutoffLater(clock, now);
      clock := now;
      if reading.Unanswered? {
        return;
      }
      if reading.bytes.Some? {
        var day, e := zone.day(now), Event(now, reading.bytes.value);
        CutoffPast(zone, now);
        CountCollected(zone, days, log, kept, e);
        if user.Some? {
          DayOrder(zone, user.value.start, now);
          MeasuresMore(zone, log, user.value, mark, e);
        }
        days := Count(days, day, e.bytes);
        log := log + [e];
      }
      KeptCollected(zone, days, log, kept, Cutoff(now));
      days := Kept(days, Cutoff(now));
      kept := Cutoff(now);
    }

    /** Where the period begins that a look at this time, or a tick then, finds. */
    ghost function MarkAt(now: int): nat
      requires Valid() && user.Some?
      reads this
    {
      if period.Some? then MarkAfter(zone, period.value, user.value, log, mark, now) else mark
    }

    /** The manager's tick: the collector runs, a user not seen before starts, another's period
        rolls. */
    method Tick(at: int, reading: Reading, now: int)
      requires Valid() && clock <= at <= now
      modifies this`days, this`log, this`kept, this`user, this`clock, this`mark, this`started, this`from
      ensures Valid() && clock == now && user.Some? && log == old(log) + Events(at, reading)
      ensures kept == if reading.Counted? then Cutoff(at) else old(kept)
      ensures old(user) == None ==> mark == |log|
      ensures old(user).Some? ==>
        user.value == if period.Some? then Rolled(zone, period.value, old(user).value, now) else old(user).value
      // A user not seen before starts now; the day of the month is today's.
      ensures old(user) == None ==> started == from == now && user.value.start == now
      ensures old(user).Some? ==> started == old(started) && from == old(from)
      ensures user.value.anchor == Some(Day())
      // A period that renews then begins on the last renewal there was.
      ensures period.Some? ==> LastRenewal(zone, period.value, Day(), from, now, user.value.start)
      ensures period == None && old(user).Some? ==> user == old(user)
      ensures old(user).Some? ==> old(mark) <= mark
      // Exactly the traffic from the last boundary on is the current period's.
      ensures old(user).Some? && user != old(user) ==>
        forall i :: 0 <= i < |log| ==> (i < mark <==> log[i].time < user.value.start)
      ensures user == old(user) ==> mark == old(mark)
      // A period that renews, or starts now, then begins on a day that is kept.
      ensures period.Some? || old(user) == None ==> kept <= zone.day(user.value.start)
    {
      hide Zone.Valid, Zone.NearUtc, Measures, Collected, InOrder, Rolled, Cutoff;
      Collect(at, reading);
      Settle(now);
    }

    /** What a tick does with the user's state. */
    method Settle(now: int)
      requires Valid() && now >= clock
      modifies this`user, this`clock, this`mark, this`started, this`from
      ensures Valid() && clock == now && user.Some?
      ensures old(user) == None ==> mark == |log|
      ensures old(user).Some? ==>
        user.value == if period.Some? then Rolled(zone, period.value, old(user).value, now) else old(user).value
      ensures old(user) == None ==> started == from == now && user.value.start == now
      ensures old(user).Some? ==> started == old(started) && from == old(from)
      ensures user.value.anchor == Some(Day())
      ensures period.Some? ==> LastRenewal(zone, period.value, Day(), from, now, user.value.start)
      ensures period == None && old(user).Some? ==> user == old(user)
      ensures old(user).Some? ==> old(mark) <= mark
      // A period that renewed begins with the first traffic at or after its boundary.
      ensures old(user).Some? && user != old(user) ==> mark == CountBefore(log, user.value.start)
      ensures user == old(user) ==> mark == old(mark)
      ensures old(user).Some? && user != old(user) ==>
        forall i :: 0 <= i < |log| ==> (i < mark <==> log[i].time < user.value.start)
      ensures old(user).Some? ==> mark == old(MarkAt(now))
      ensures period.Some? || old(user) == None ==> kept <= zone.day(user.value.start)
    {
      hide Zone.Valid, Zone.NearUtc, Measures, Collected, InOrder, StartPeriod, Rolled, Total, Plus, CountBefore,
          Cutoff;
      CutoffLater(clock, now);
      CutoffPast(zone, now);
      clock := now;
      if user == None {
        StartMeasures(zone, days, log, kept, now);
        user := Some(StartPeriod(zone, days, now));
        StartsNow(zone, days, now);
        started, from, mark := now, now, |log|;
        if period.Some? { NoRenewal(zone, period.value, user.value, now); }
      } else {
        RollPeriodUser(now);
        CountBeforeSplits(log, user.value.start);
      }
    }

    method RollPeriodUser(now: int)
      requires Valid() && now >= clock && user.Some?
      modifies this`user, this`mark
      ensures user.Some? && Renews(user.value)
      ensures period.Some? ==> LastRenewal(zone, period.value, Day(), from, now, user.value.start)
      ensures user.Some? && Measures(zone, log, user.value, mark) && old(mark) <= mark <= |log|
        && user.value.start <= now
      ensures user.value == if period.Some? then Rolled(zone, period.value, old(user).value, now) else old(user).value
      ensures user != old(user) ==> mark == CountBefore(log, user.value.start)
      ensures user == old(user) ==> mark == old(mark)
      ensures mark == old(MarkAt(now))
      ensures period.Some? ==> kept <= zone.day(user.value.start)
    {
      hide Zone.Valid, Zone.NearUtc, Measures, Collected, InOrder, Rolled, CountBefore, MarkAfter, PeriodEnd, Cutoff;
      ghost var before := user.value;
      MeasuresState(zone, log, before, mark);
      var us, moved := RollPeriod(zone, period, user.value, now);
      if period.Some? {
        RollMeasures(zone, period.value, log, before, mark, now);
        RolledNotBefore(zone, period.value, before, now);
        RolledMoves(zone, period.value, before, now);
        RolledRenews(zone, period.value, before, from, now);
        mark := MarkAfter(zone, period.value, before, log, mark, now);
        MeasuresState(zone, log, us, mark);
        CurrentKept(zone, period.value, us, now);
        CutoffLater(clock, now);
      }
      user := Some(us);
    }

    /** The traffic starts over by hand. */
    method Reset(now: int)
      requires Valid() && now >= clock
      modifies this`user, this`clock, this`mark, this`started, this`from
      ensures Valid() && clock == now && user.Some? && mark == |log| && kept <= zone.day(user.value.start)
      ensures started == from == now && user.value.start == now && user.value.anchor == Some(Day())
    {
      hide Zone.Valid, Zone.NearUtc, Cutoff;
      CutoffLater(clock, now);
      CutoffPast(zone, now);
      StartMeasures(zone, days, log, kept, now);
      clock := now;
      user := Some(StartPeriod(zone, days, now));
      StartsNow(zone, days, now);
      started, from, mark := now, now, |log|;
    }

    /** What is shown: the bytes counted since the period began, exactly, unless the day it began on
        is dropped and something is lost with it; none of a user not seen yet. */
    method Show() returns (used: Bytes)
      requires Valid()
      ensures user == None ==> used == ZERO
      ensures user.Some? ==>
        mark <= |log| && used == Shown(zone, log, user.value, mark, kept)
        && (used == Total(log[mark..])
            <==> kept <= zone.day(user.value.start) || NothingLost(zone, log[mark..], user.value, kept))
    {
      hide Zone.Valid, Zone.NearUtc, Shown, Total, NothingLost;
      used := PeriodTraffic(zone, days, user);
      if user.Some? {
        UsedIsShown(zone, days, log, user.value, mark, kept);
        UsedIsExact(zone, days, log, user.value, mark, kept);
      }
    }

    /** What statuses() sees, rolling a copy: exact for a period that renews, at any time. */
    method Look(now: int) returns (used: Bytes)
      requires Valid() && now >= clock && user.Some?
      ensures MarkAt(now) <= |log| && (period.Some? ==> used == Total(log[MarkAt(now)..]))
      ensures period == None ==> used == Shown(zone, log, user.value, mark, kept)
    {
      hide Zone.Valid, Zone.NearUtc, Shown, Total, NothingLost, Measures, Collected, MarkAfter, Rolled, PeriodEnd,
          IsState, Cutoff;
      MeasuresState(zone, log, user.value, mark);
      var copy, moved := RollPeriod(zone, period, user.value, now);
      if period.Some? {
        RollMeasures(zone, period.value, log, user.value, mark, now);
        RolledNotBefore(zone, period.value, user.value, now);
        CurrentKept(zone, period.value, copy, now);
        CutoffLater(clock, now);
      }
      used := PeriodTraffic(zone, days, Some(copy));
      MeasuresState(zone, log, copy, MarkAt(now));
      UsedIsShown(zone, days, log, copy, MarkAt(now), kept);
      UsedIsExact(zone, days, log, copy, MarkAt(now), kept);
    }

    /** A look just before a tick shows what is shown after it, but for what the tick collects. */
    method LookThenTick(now: int, reading: Reading) returns (looked: Bytes, shown: Bytes)
      requires Valid() && now >= clock && user.Some? && (period.Some? || reading.Unanswered?)
      modifies this`days, this`log, this`kept, this`user, this`clock, this`mark, this`started, this`from
      ensures Valid() && shown == Plus(looked, Total(Events(now, reading)))
    {
      hide Zone.Valid, Zone.NearUtc, Measures, Collected, InOrder, Total, MarkAfter, Rolled, CountBefore, Shown,
          NothingLost, Cutoff, Plus, Events, IsState, LogFrom;
      ghost var before, first, us := log, mark, user.value;
      MeasuresState(zone, log, us, mark);
      looked := Look(now);
      ghost var begins := MarkAt(now);
      Collect(now, reading);
      if period.Some? { MarkStays(zone, period.value, us, before, first, now, reading); }
      Settle(now);
      shown := Show();
      SinceMore(zone, before, begins, now, reading);
      NothingMore(reading, now, looked);
    }
  }

  lemma MarkStays(z: Zone, p: Period, us: UserState, log: seq<Event>, mark: nat, now: int, reading: Reading)
    requires z.Valid() && IsState(z, us)
    ensures MarkAfter(z, p, us, log + Events(now, reading), mark, now) == MarkAfter(z, p, us, log, mark, now)
  {
    hide MarkAfter, Zone.Valid;
    if reading.Counted? && reading.bytes.Some? {
      MarkAfterMore(z, p, us, log, mark, now, Event(now, reading.bytes.value));
    } else {
      assert log + [] == log;
    }
  }

  lemma NothingMore(reading: Reading, now: int, looked: Bytes)
    ensures reading.Unanswered? ==>
      Plus(looked, Total(Events(now, reading))) == looked && forall log: seq<Event> :: log + Events(now, reading) == log
  {
    ZeroPlus(looked);
  }

  lemma SinceMore(z: Zone, log: seq<Event>, mark: nat, now: int, reading: Reading)
    requires mark <= |log|
    ensures Total((log + Events(now, reading))[mark..]) == Plus(Total(log[mark..]), Total(Events(now, reading)))
  {
    hide Total;
    assert (log + Events(now, reading))[mark..] == log[mark..] + Events(now, reading);
    LogConcat(z, log[mark..], Events(now, reading), 0);
  }

  // ---- A year on ----

  /** A zone whose clocks show universal time. */
  const UTC := Zone(day => (day - EPOCH) * 86400, t => UtcDay(t))

  lemma UtcValid()
    ensures UTC.Valid() && UTC.NearUtc()
  {}

  /** Five bytes of a user without a period, counted on their first day: past 366 days on, the
      collector has dropped them, and none are shown. */
  lemma YearOld()
    ensures var us, log := UserState(50, 0, 0, Some(1)), [Event(100, Bytes(5, 0))];
            var days := Kept(Count([], UTC.day(100), Bytes(5, 0)), Cutoff(400 * 86400));
            UTC.Valid() && UTC.NearUtc()
            && Measures(UTC, log, us, 0) && Collected(UTC, days, log, Cutoff(400 * 86400))
            && Used(UTC, days, us) == ZERO && Total(log[0..]) == Bytes(5, 0)
  {
    hide SumFrom, Collected, Kept, Count, Measures, Total, LogFrom, Zone.Valid, Zone.NearUtc;
    UtcValid();
    var us, e := UserState(50, 0, 0, Some(1)), Event(100, Bytes(5, 0));
    assert UTC.day(100) == EPOCH && UTC.day(50) == EPOCH && Cutoff(400 * 86400) == EPOCH + 34;
    NoneCollected(UTC, EPOCH);
    CountCollected(UTC, [], [], EPOCH, e);
    assert [] + [e] == [e];
    KeptCollected(UTC, Count([], EPOCH, Bytes(5, 0)), [e], EPOCH, EPOCH + 34);
    CollectedFrom(UTC, Kept(Count([], EPOCH, Bytes(5, 0)), EPOCH + 34), [e], EPOCH + 34, EPOCH);
    assert [e][0..] == [e];
    OneEvent(UTC, e, EPOCH + 34);
    FromStart(us, e);
  }

  lemma OneEvent(z: Zone, e: Event, first: int)
    requires z.day(e.time) < first
    ensures Total([e]) == e.bytes && LogFrom(z, [e], first) == ZERO
  {
    hide Total, Plus, LogFrom, LogBefore;
    LogNoneFrom(z, [e], first);
    ZeroPlus(e.bytes);
    NoEvents(z, first);
    var early := LastEvent(z, [e], first);
    assert [e][..0] == [];
  }

  lemma FromStart(us: UserState, e: Event)
    requires us == UserState(50, 0, 0, Some(1)) && e.time == 100
    ensures Measures(UTC, [e], us, 0)
  {
    assert [e][..0] == [];
  }

  lemma NoneCollected(z: Zone, kept: int)
    ensures Collected(z, [], [], kept)
  {}
}
