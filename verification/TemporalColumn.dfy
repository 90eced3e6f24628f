/** The date and time engine through its entry point: which strategy answers, and what it answers, on a whole column. */
module TemporalColumn {
  import opened Collections
  import opened Progression
  import opened Grids
  import opened Calendar
  import opened TemporalEvidence
  import opened TemporalRecovery

  // --- instants ------------------------------------------------------------------------------------

  /** Microseconds in a day, and the last microsecond of the year 9999. */
  lemma DaysAreCounted()
    ensures DAY == 24 * 60 * 60 * 1_000_000
    ensures MAX_INSTANT == Instant(Date(9999, 12, 31), DAY - 1)
    ensures Instant(Date(1, 1, 1), 0) == 0
  {
    assert DaysBeforeMonth(9999, 12) == 334 by {
      assert DaysBeforeMonth(9999, 4) == 90;
      assert DaysBeforeMonth(9999, 8) == 212;
    }
  }

  /** A date stands for its midnight, a timestamp for its date and time whatever its offset. */
  lemma InstantsCount(o: Observation)
    ensures InstantOf(o).None? <==> o.Unreadable?
    ensures o.Day? ==> InstantOf(o) == Some((Ordinal(o.date) - 1) * DAY)
    ensures o.Stamp? ==> InstantOf(o) == Some((Ordinal(o.date) - 1) * DAY + o.time)
  {
  }

  // --- what stands before the strategies ------------------------------------------------------------

  ghost function ReadableAt(observed: seq<Observation>): set<nat> {
    set i: nat | i < |observed| && !observed[i].Unreadable?
  }

  /** Two values with different offsets, where a value without one has none. */
  ghost predicate MixesOffsets(observed: seq<Observation>) {
    exists o, p :: o in observed && p in observed && !o.Unreadable? && !p.Unreadable? && Differs(o, p)
  }

  ghost predicate Differs(o: Observation, p: Observation) {
    match (o, p)
    case (Stamp(_, _, a), Stamp(_, _, b)) => a != b
    case (Stamp(_, _, a), _) => a.Some?
    case (_, Stamp(_, _, b)) => b.Some?
    case _ => false
  }

  lemma {:induction false} ReadableMembers(observed: seq<Observation>)
    ensures forall o :: o in FilterMap(observed, Readable) <==> o in observed && !o.Unreadable?
  {
    forall o ensures o in FilterMap(observed, Readable) <==> o in observed && !o.Unreadable? {
      FilterMapMember(observed, Readable, o);
    }
  }

  lemma UniformIffUnmixed(observed: seq<Observation>)
    ensures Uniform(FilterMap(observed, Readable)) <==> !MixesOffsets(observed)
  {
    var parsed := FilterMap(observed, Readable);
    ReadableMembers(observed);
    hide FilterMap;
    forall o, p | o in parsed && p in parsed ensures Differs(o, p) <==> OffsetOf(o) != OffsetOf(p) { }
    if parsed != [] {
      assert parsed[0] in parsed;
      if !Uniform(parsed) {
        var o :| o in parsed && OffsetOf(o) != OffsetOf(parsed[0]);
        assert Differs(o, parsed[0]);
      }
    }
  }

  /** Mixed offsets are ambiguous, fewer than five readable values are too few, and one instant is no progression. */
  lemma BeforeTheStrategies(observed: seq<Observation>)
    ensures var r, n := Discover(observed), |ReadableAt(observed)|;
      && (MixesOffsets(observed) ==> r == Result(Ambiguous, 0, None))
      && (!MixesOffsets(observed) && n < 5 ==> r == Result(InsufficientGroup, n, None))
      && (!MixesOffsets(observed) && n >= 5 && |ValuesOf(Instants(observed))| < 2 ==>
            r == Result(NoRelationship, n, None))
  {
    var parsed := FilterMap(observed, Readable);
    FilterMapCount(observed, Readable, ReadableAt(observed));
    UniformIffUnmixed(observed);
    SortedCount(Instants(observed));
    hide FilterMap, Uniform, MixesOffsets, SortUnique;
  }

  lemma SortedCount(xs: seq<int>)
    ensures |SortUnique(xs)| == |ValuesOf(xs)| && ValuesOf(SortUnique(xs)) == ValuesOf(xs)
  {
    IncreasingCount(SortUnique(xs));
    assert ValuesOf(SortUnique(xs)) == ValuesOf(xs);
  }

  // --- the fixed interval, as a set on a grid -----------------------------------------------------------

  /** Too few agreeing jumps, or a span of more than ten thousand slots. */
  ghost predicate IsSparse(values: set<int>, lo: int, hi: int, step: int) {
    2 * |Jumps(values, step)| < |values| - 1 || hi - lo > 9999 * step
  }

  ghost predicate IsFixedGrid(values: set<int>, lo: int, hi: int, step: int, gaps: set<int>) {
    && IsLeast(values, lo) && IsGreatest(values, hi) && IsStepOf(values, step)
    && gaps == SlotsBetween(lo, hi + 1, step) - values
  }

  /** The slot after the last value is the first one on the grid beyond it. */
  lemma SlotAfterIsFirstBeyond(lo: int, hi: int, step: int)
    requires step > 0 && lo <= hi
    ensures hi < SlotAfter(lo, hi, step) <= hi + step && (SlotAfter(lo, hi, step) - lo) % step == 0
  {
    var q := (hi - lo) / step;
    assert hi - lo == q * step + (hi - lo) % step;
    StepOver(q, step);
    DivideWithin(q + 1, 0, step);
  }

  /** What the strategy concludes from these facts, in this order. */
  ghost predicate IsFixedOutcome(f: Outcome<int>, isSparse: bool, slotAfter: int, gaps: set<int>, duplicates: nat,
                                 support: nat, hi: int, step: int)
  {
    if isSparse then f == Declined(NoRelationship)
    else if slotAfter > MAX_INSTANT then f == Failed(OutOfRange)
    else if gaps == {} && duplicates == 0 then f == Declined(NoRelationship)
    else if |gaps| > 1 || duplicates > 1 || support < 3 then f == Declined(Ambiguous)
    else if gaps != {} then f.Found? && f.strategy == TemporalGap && gaps == {f.value} && f.step == step
    else f == if hi + step > MAX_INSTANT then Failed(OutOfRange) else Found(TemporalNextValue, hi + step, step)
  }

  /** The fixed-interval strategy as a function of the set of instants and the number of repeats. */
  lemma FixedIsDecided(unique: seq<int>, duplicates: nat, lo: int, hi: int, step: int, gaps: set<int>)
    requires |unique| >= 2 && Increasing(unique) && IsFixedGrid(ValuesOf(unique), lo, hi, step, gaps)
    ensures IsFixedOutcome(Fixed(unique, duplicates), IsSparse(ValuesOf(unique), lo, hi, step),
                           SlotAfter(lo, hi, step), gaps, duplicates, |Jumps(ValuesOf(unique), step)|, hi, step)
  {
    FixedGridOf(unique);
    var first, last, mode := unique[0], unique[|unique| - 1], Mode(Diffs(unique));
    var absent := Absent(FixedSlots(first, last, mode), unique);
    FixedGridIsUnique(ValuesOf(unique), lo, hi, step, gaps, first, last, mode, ValuesOf(absent));
    hide IsFixedGrid, Jumps, Diffs, Mode, Count, Absent, FixedSlots, Increasing, Fixed, IsFixedOutcome, SlotAfter,
         IsSparse, ValuesOf;
    FixedTable(unique, duplicates, absent);
  }

  lemma FixedGridIsUnique(values: set<int>, lo: int, hi: int, step: int, gaps: set<int>,
                          lo': int, hi': int, step': int, gaps': set<int>)
    requires IsFixedGrid(values, lo, hi, step, gaps) && IsFixedGrid(values, lo', hi', step', gaps')
    ensures lo == lo' && hi == hi' && step == step' && gaps == gaps'
  {
    StepIsUnique(values, step, step');
    hide IsStepOf, SlotsBetween;
  }

  lemma FixedGridOf(unique: seq<int>)
    requires |unique| >= 2 && Increasing(unique)
    ensures Diffs(unique) != [] && Mode(Diffs(unique)) > 0
    ensures var lo, hi, step := unique[0], unique[|unique| - 1], Mode(Diffs(unique));
      var absent := Absent(FixedSlots(lo, hi, step), unique);
      && IsFixedGrid(ValuesOf(unique), lo, hi, step, ValuesOf(absent)) && |ValuesOf(absent)| == |absent|
      && |ValuesOf(unique)| == |unique| && |Diffs(unique)| == |unique| - 1 && hi + step !in ValuesOf(unique)
      && Count(Diffs(unique), step) == |Jumps(ValuesOf(unique), step)|
  {
    var lo, hi := unique[0], unique[|unique| - 1];
    hide IsStepOf, Jumps, Diffs, Mode, Count, Absent, FixedSlots, Increasing, SlotsBetween;
    IncreasingCount(unique);
    EndsOf(unique);
    ModeIsTheStep(unique);
    DiffsPositive(unique);
    var step := Mode(Diffs(unique));
    DiffsCountJumps(unique, step);
    AbsentAreMissing(lo, hi + 1, step, unique);
    SlotsAreARange(lo, hi, step);
  }

  lemma SlotsAreARange(lo: int, hi: int, step: int)
    requires step > 0
    ensures FixedSlots(lo, hi, step) == Range(lo, hi + 1, step)
  {
  }

  /** The branches of the strategy. */
  lemma FixedTable(unique: seq<int>, duplicates: nat, absent: seq<int>)
    requires |unique| >= 2 && Increasing(unique) && Diffs(unique) != [] && Mode(Diffs(unique)) > 0
    requires absent == Absent(FixedSlots(unique[0], unique[|unique| - 1], Mode(Diffs(unique))), unique)
    requires |ValuesOf(absent)| == |absent| && unique[|unique| - 1] + Mode(Diffs(unique)) !in ValuesOf(unique)
    ensures var diffs, lo, hi := Diffs(unique), unique[0], unique[|unique| - 1];
      var step := Mode(diffs);
      IsFixedOutcome(Fixed(unique, duplicates), 2 * Count(diffs, step) < |diffs| || hi - lo > 9999 * step,
                     SlotAfter(lo, hi, step), ValuesOf(absent), duplicates, Count(diffs, step), hi, step)
  {
    hide Diffs, Mode, Count, Absent, FixedSlots, Increasing, SlotAfter;
    if |absent| == 1 {
      var x := absent[0];
      assert x in absent;
      OneValue(absent);
    }
  }

  lemma OneValue(xs: seq<int>)
    requires |xs| == 1
    ensures ValuesOf(xs) == {xs[0]}
  {
    assert xs == [xs[0]];
  }

  // --- months and years, as sets on a grid --------------------------------------------------------------------

  ghost predicate IsCalendarGrid(values: set<int>, lo: int, hi: int, step: int, gaps: set<int>) {
    && IsLeast(values, lo) && IsGreatest(values, hi) && IsStepOf(values, step)
    && gaps == SlotsBetween(lo, hi + step, step) - values
  }

  /** What the strategies conclude about indexes from these facts, in this order. */
  ghost predicate IsPlaceOutcome(p: Outcome<int>, isTooWide: bool, n: nat, gaps: set<int>, duplicates: nat, hi: int,
                                 step: int)
  {
    if isTooWide then p == Declined(NoRelationship)
    else if n < 3 then p == Declined(Ambiguous)
    else if gaps == {} && duplicates == 0 then p == Declined(NoRelationship)
    else if |gaps| > 1 || duplicates > 1 then p == Declined(Ambiguous)
    else if gaps != {} then p.Found? && p.strategy == TemporalGap && gaps == {p.value} && p.step == step
    else p == Found(TemporalNextValue, hi + step, step)
  }

  ghost predicate IsTooFar(lo: int, hi: int, step: int, limit: int)
    requires step > 0
  {
    step > limit || (hi - lo) / step > limit
  }

  /** Where the months or years of distinct dates in order leave one index to fill; none is more than 2000 steps off. */
  lemma PlaceIsDecided(indexes: seq<int>, duplicates: nat, lo: int, hi: int, step: int, gaps: set<int>)
    requires |indexes| >= 2 && Increasing(indexes) && IsCalendarGrid(ValuesOf(indexes), lo, hi, step, gaps)
    ensures Diffs(indexes) != []
    ensures IsPlaceOutcome(Place(indexes, duplicates, 2000), IsTooFar(lo, hi, step, 2000), |indexes|, gaps,
                           duplicates, hi, step)
  {
    CalendarGridOf(indexes);
    var first, last, mode := indexes[0], indexes[|indexes| - 1], Mode(Diffs(indexes));
    var absent := Absent(CalendarSlots(first, last, mode), indexes);
    CalendarGridIsUnique(ValuesOf(indexes), lo, hi, step, gaps, first, last, mode, ValuesOf(absent));
    hide IsCalendarGrid, Diffs, Mode, Absent, CalendarSlots, Increasing, Place, IsPlaceOutcome, IsTooFar, ValuesOf;
    PlaceTable(indexes, duplicates, 2000, absent);
  }

  lemma CalendarGridIsUnique(values: set<int>, lo: int, hi: int, step: int, gaps: set<int>,
                             lo': int, hi': int, step': int, gaps': set<int>)
    requires IsCalendarGrid(values, lo, hi, step, gaps) && IsCalendarGrid(values, lo', hi', step', gaps')
    ensures lo == lo' && hi == hi' && step == step' && gaps == gaps'
  {
    StepIsUnique(values, step, step');
    hide IsStepOf, SlotsBetween;
  }

  lemma CalendarGridOf(indexes: seq<int>)
    requires |indexes| >= 2 && Increasing(indexes)
    ensures Diffs(indexes) != [] && Mode(Diffs(indexes)) > 0
    ensures var lo, hi, step := indexes[0], indexes[|indexes| - 1], Mode(Diffs(indexes));
      var absent := Absent(CalendarSlots(lo, hi, step), indexes);
      IsCalendarGrid(ValuesOf(indexes), lo, hi, step, ValuesOf(absent)) && |ValuesOf(absent)| == |absent|
  {
    var lo, hi := indexes[0], indexes[|indexes| - 1];
    hide IsStepOf, Diffs, Mode, Absent, CalendarSlots, Increasing, SlotsBetween, IsLeast, IsGreatest, ValuesOf;
    EndsOf(indexes);
    ModeIsTheStep(indexes);
    StepIsPositive(ValuesOf(indexes), Mode(Diffs(indexes)));
    var step := Mode(Diffs(indexes));
    AbsentAreMissing(lo, hi + step, step, indexes);
    CalendarSlotsAreARange(lo, hi, step);
  }

  lemma StepIsPositive(values: set<int>, step: int)
    requires IsStepOf(values, step)
    ensures step > 0
  {
    hide Jumps;
  }

  lemma CalendarSlotsAreARange(lo: int, hi: int, step: int)
    requires step > 0
    ensures CalendarSlots(lo, hi, step) == Range(lo, hi + step, step)
  {
  }

  lemma PlaceTable(indexes: seq<int>, duplicates: nat, limit: int, absent: seq<int>)
    requires |indexes| >= 2 && Diffs(indexes) != [] && Mode(Diffs(indexes)) > 0
    requires absent == Absent(CalendarSlots(indexes[0], indexes[|indexes| - 1], Mode(Diffs(indexes))), indexes)
    requires |ValuesOf(absent)| == |absent|
    ensures var lo, hi, step := indexes[0], indexes[|indexes| - 1], Mode(Diffs(indexes));
      IsPlaceOutcome(Place(indexes, duplicates, limit), IsTooFar(lo, hi, step, limit), |indexes|,
                     ValuesOf(absent), duplicates, hi, step)
  {
    hide Diffs, Mode, Count, Absent, CalendarSlots;
    if |absent| == 1 { OneValue(absent); }
  }

  /** The month strategy needs one day of the month, or month ends; the year strategy needs one anniversary. */
  lemma ConventionsDecide(dates: seq<Date>, duplicates: nat)
    requires |dates| >= 2
    ensures Diffs(MonthIndexes(dates)) != [] && Diffs(Years(dates)) != []
    ensures (exists d, e :: d in dates && e in dates && d.day != e.day)
            && (exists d :: d in dates && d.day != LastDay(d.year, d.month)) ==>
      TryMonths(dates, duplicates) == Declined(NoRelationship)
    ensures (exists d, e :: d in dates && e in dates && (d.day != e.day || d.month != e.month)) ==>
      TryYears(dates, duplicates) == Declined(NoRelationship)
    ensures Place(MonthIndexes(dates), duplicates, 2000).Declined? && (SameDay(dates) || MonthEnds(dates)) ==>
      TryMonths(dates, duplicates) == Declined(Place(MonthIndexes(dates), duplicates, 2000).status)
    ensures Place(Years(dates), duplicates, 2000).Declined? && SameMonthDay(dates) ==>
      TryYears(dates, duplicates) == Declined(Place(Years(dates), duplicates, 2000).status)
  {
    DiffsExist(MonthIndexes(dates));
    DiffsExist(Years(dates));
    hide Place, Diffs, MonthIndexes, Years, LastDay;
  }

  // --- the calendar strategies through the entry point ----------------------------------------------------------

  function DateOf(o: Observation): Option<Date> {
    if o.Unreadable? then None else Some(o.date)
  }

  /** The dates of a column's readable values. */
  function Dates(observed: seq<Observation>): seq<Date> { FilterMap(observed, DateOf) }

  lemma {:induction false} CodesOfDates(observed: seq<Observation>)
    ensures FilterMap(FilterMap(observed, Readable), CodeOf) == Codes(Dates(observed))
  {
    if observed != [] {
      CodesOfDates(observed[1..]);
      hide Code;
      if !observed[0].Unreadable? {
        var rest := FilterMap(observed[1..], Readable);
        assert FilterMap(observed, Readable) == [observed[0]] + rest;
        assert Dates(observed) == [observed[0].date] + Dates(observed[1..]);
      }
    }
  }

  /** Every readable value has this time of day. */
  ghost predicate AllAt(observed: seq<Observation>, time: TimeOfDay) {
    forall o :: o in observed && !o.Unreadable? ==> if o.Stamp? then o.time == time else time == 0
  }

  /** The fixed-interval strategy was tried, and declined with this status. */
  ghost predicate FixedDeclines(observed: seq<Observation>, status: Status) {
    var instants := Instants(observed);
    && !MixesOffsets(observed) && |ReadableAt(observed)| >= 5 && |SortUnique(instants)| >= 2
    && Fixed(SortUnique(instants), Excess(SortUnique(instants), instants)) == Declined(status)
  }

  /** The engine answers with this strategy of this kind, and this date at this time of day. */
  ghost predicate AnswersDate(r: Result, kind: Kind, found: Outcome<Date>, time: TimeOfDay) {
    && found.Found? && IsDate(found.value) && r.Result? && r.status == Candidate && r.best.Some?
    && r.best.value.kind == kind && r.best.value.strategy == found.strategy && r.best.value.step == found.step
    && r.best.value.instant == (Ordinal(found.value) - 1) * DAY + time
  }

  /**
    After the fixed interval declined: with differing times of day its status stands; otherwise the years are tried, and
    after them the months, on the distinct dates in order; if both decline its status stands too.
  */
  lemma CalendarsAnswer(observed: seq<Observation>, status: Status)
    requires FixedDeclines(observed, status)
    ensures (forall time :: !AllAt(observed, time)) ==>
      Discover(observed) == Result(status, |ReadableAt(observed)|, None)
    ensures forall time :: AllAt(observed, time) ==> CalendarAnswer(observed, time, status)
  {
    var parsed := FilterMap(observed, Readable);
    FilterMapCount(observed, Readable, ReadableAt(observed));
    UniformIffUnmixed(observed);
    ReadableMembers(observed);
    assert parsed[0] in parsed;
    CodesOfDates(observed);
    hide FilterMap, Uniform, MixesOffsets, SortUnique, Excess, Fixed, TryYears, TryMonths, Decode, Codes, Dates;
    if OneTimeOfDay(parsed) { assert AllAt(observed, TimeOf(parsed[0])); }
    forall time | AllAt(observed, time) ensures CalendarAnswer(observed, time, status) {
      assert OneTimeOfDay(parsed) && TimeOf(parsed[0]) == time;
      CalendarsAt(parsed, observed, time, status);
    }
  }

  ghost predicate CalendarAnswer(observed: seq<Observation>, time: TimeOfDay, status: Status) {
    var r, dates, repeats := Discover(observed), SortedDates(Dates(observed)), Repeats(Dates(observed));
    var years, months := TryYears(dates, repeats), TryMonths(dates, repeats);
    if years.Failed? then r == Raised(years.error)
    else if years.Found? then AnswersDate(r, CalendarYears, years, time)
    else if months.Found? then AnswersDate(r, CalendarMonths, months, time)
    else r == Result(status, |ReadableAt(observed)|, None)
  }

  lemma CalendarsAt(parsed: seq<Observation>, observed: seq<Observation>, time: TimeOfDay, status: Status)
    requires parsed != [] && TimeOf(parsed[0]) == time && |parsed| == |ReadableAt(observed)|
    requires FilterMap(parsed, CodeOf) == Codes(Dates(observed)) && Discover(observed) == Calendars(parsed, status)
    ensures CalendarAnswer(observed, time, status)
  {
    var dates, repeats := SortedDates(Dates(observed)), Repeats(Dates(observed));
    FoundDatesAreDates(dates, repeats);
    hide Discover, FilterMap, Codes, Dates, SortUnique, Excess, Decode, TryYears, TryMonths, Ordinal, Confidence;
  }

  // --- recovery of a deleted date through the entry point ----------------------------------------------------------

  /** The engine answers with a gap of this kind: the instant of this date at this time of day. */
  ghost predicate GivesBack(r: Result, kind: Kind, gone: CalendarDate, time: TimeOfDay) {
    && r.Result? && r.status == Candidate && r.best.Some? && r.best.value.kind == kind
    && r.best.value.strategy == TemporalGap && r.best.value.instant == (Ordinal(gone) - 1) * DAY + time
  }

  /** A column at one time of day, whose fixed interval declines, on the dates of a month progression that lacks one. */
  ghost predicate IsMonthColumn(first: int, step: int, n: nat, k: nat, day: int, endOfMonth: bool,
                                observed: seq<Observation>, time: TimeOfDay)
  {
    && 1 <= step <= 2000 && 5 <= n <= 2001 && 0 < k < n - 1
    && (forall m :: m in Without(first, step, n, k) ==> Fits(m, day, endOfMonth))
    && Fits(first + k * step, day, endOfMonth)
    && multiset(Dates(observed)) == multiset(DatesAt(Without(first, step, n, k), day, endOfMonth))
    && AllAt(observed, time) && exists status :: FixedDeclines(observed, status)
  }

  /**
    Month recovery through the entry point, in any order, for steps that are no whole number of years, so that the year
    strategy declines: the deleted date comes back unless the others are all month-ends and it is not.
  */
  lemma MonthColumnRecovery(first: int, step: int, n: nat, k: nat, day: int, endOfMonth: bool,
                            observed: seq<Observation>, time: TimeOfDay)
    requires Fits(first + k * step, day, endOfMonth) && step % 12 != 0
    requires IsMonthColumn(first, step, n, k, day, endOfMonth, observed, time)
    ensures MonthComesBack(observed, DateAt(first + k * step, day, endOfMonth), endOfMonth, time)
  {
    assert MAX_EXPECTED_MONTHS == 2000;
    hide *;
    var status := DecliningStatus(first, step, n, k, day, endOfMonth, observed, time);
    var dates, gone := Dates(observed), DateAt(first + k * step, day, endOfMonth);
    CalendarsAnswer(observed, status);
    MonthRecovery(first, step, n, k, day, endOfMonth, dates);
    YearsDecline(first, step, n, k, day, endOfMonth, dates);
    MonthStep(first, step, n, k, day, endOfMonth, dates);
    MonthsAnswer(observed, time, status, gone, step, endOfMonth);
  }

  /** The date comes back as a gap of months, unless all observed dates are month-ends and it is not. */
  ghost predicate MonthComesBack(observed: seq<Observation>, gone: CalendarDate, endOfMonth: bool, time: TimeOfDay) {
    GivesBack(Discover(observed), CalendarMonths, gone, time) <==>
      endOfMonth || !MonthEnds(Dates(observed)) || IsMonthEnd(gone)
  }

  lemma DecliningStatus(first: int, step: int, n: nat, k: nat, day: int, endOfMonth: bool,
                        observed: seq<Observation>, time: TimeOfDay) returns (status: Status)
    requires IsMonthColumn(first, step, n, k, day, endOfMonth, observed, time)
    ensures FixedDeclines(observed, status) && AllAt(observed, time)
    ensures 1 <= step <= 2000 && 5 <= n <= 2001 && 0 < k < n - 1
    ensures (forall m :: m in Without(first, step, n, k) ==> Fits(m, day, endOfMonth))
            && Fits(first + k * step, day, endOfMonth)
    ensures multiset(Dates(observed)) == multiset(DatesAt(Without(first, step, n, k), day, endOfMonth))
  {
    hide Without, Fits, Dates, DatesAt, AllAt, FixedDeclines;
    status :| FixedDeclines(observed, status);
  }

  /** With years declined, the engine gives a date back exactly when the month strategy finds it. */
  lemma MonthsAnswer(observed: seq<Observation>, time: TimeOfDay, status: Status, gone: Date, step: int,
                     endOfMonth: bool)
    requires CalendarAnswer(observed, time, status) && IsDate(gone)
    requires var dates, repeats := SortedDates(Dates(observed)), Repeats(Dates(observed));
      && TryYears(dates, repeats).Declined?
      && (TryMonths(dates, repeats).Found? ==> TryMonths(dates, repeats).step == step)
      && (TryMonths(dates, repeats) == Found(TemporalGap, gone, step) <==>
            endOfMonth || !MonthEnds(Dates(observed)) || IsMonthEnd(gone))
    ensures MonthComesBack(observed, gone, endOfMonth, time)
  {
    hide TryMonths, TryYears, SortedDates, Repeats, Discover, Dates, Ordinal, IsDate, MonthEnds, IsMonthEnd;
    var months := TryMonths(SortedDates(Dates(observed)), Repeats(Dates(observed)));
    if GivesBack(Discover(observed), CalendarMonths, gone, time) && months.Found? {
      assert Ordinal(months.value) == Ordinal(gone);
      OrdinalIsInjective(months.value, gone);
    }
  }

  /** Whatever date the month strategy finds here, its step is the progression's. */
  lemma MonthStep(first: int, step: int, n: nat, k: nat, day: int, endOfMonth: bool, dates: seq<Date>)
    requires 1 <= step <= 2000 && 5 <= n <= 2001 && 0 < k < n - 1
    requires forall m :: m in Without(first, step, n, k) ==> Fits(m, day, endOfMonth)
    requires multiset(dates) == multiset(DatesAt(Without(first, step, n, k), day, endOfMonth))
    ensures var months := TryMonths(SortedDates(dates), Repeats(dates)); months.Found? ==> months.step == step
  {
    hide *;
    var indexes := Without(first, step, n, k);
    WithoutIncreases(first, step, n, k);
    SortRestores(indexes, day, endOfMonth, dates);
    IndexesOfDates(indexes, day, endOfMonth);
    PlaceWithout(first, step, n, k, 2000);
    StepOfMonths(DatesAt(indexes, day, endOfMonth), first + k * step, step);
  }

  lemma StepOfMonths(dates: seq<Date>, index: int, step: int)
    requires Diffs(MonthIndexes(dates)) != [] && Place(MonthIndexes(dates), 0, 2000) == Found(TemporalGap, index, step)
    requires |dates| >= 2
    ensures TryMonths(dates, 0).Found? ==> TryMonths(dates, 0).step == step
  {
    hide Place, MonthIndexes, InMonth, SameDay, MonthEnds, Diffs;
  }

  /** Months a step apart that is no whole number of years include two different ones. */
  lemma YearsDecline(first: int, step: int, n: nat, k: nat, day: int, endOfMonth: bool, dates: seq<Date>)
    requires step >= 1 && n >= 5 && 0 < k < n - 1 && step % 12 != 0
    requires (forall m :: m in Without(first, step, n, k) ==> Fits(m, day, endOfMonth))
    requires multiset(dates) == multiset(DatesAt(Without(first, step, n, k), day, endOfMonth))
    ensures TryYears(SortedDates(dates), Repeats(dates)) == Declined(NoRelationship)
  {
    var indexes := Without(first, step, n, k);
    WithoutIncreases(first, step, n, k);
    SortRestores(indexes, day, endOfMonth, dates);
    var inOrder := DatesAt(indexes, day, endOfMonth);
    var i := NeighboursInWithout(first, step, n, k);
    assert inOrder[i] in inOrder && inOrder[i + 1] in inOrder;
    assert indexes[i] in indexes && indexes[i + 1] in indexes;
    MonthsDiffer(indexes[i], indexes[i + 1], step);
    assert inOrder[i].month != inOrder[i + 1].month;
    hide DatesAt, Without, SortedDates, Repeats;
    DifferingMonthsDecline(inOrder, inOrder[i], inOrder[i + 1]);
  }

  lemma DifferingMonthsDecline(dates: seq<Date>, d: Date, e: Date)
    requires d in dates && e in dates && d.month != e.month
    ensures TryYears(dates, 0) == Declined(NoRelationship)
  {
    hide Place, Diffs, Years;
  }

  lemma NeighboursInWithout(first: int, step: int, n: nat, k: nat) returns (i: nat)
    requires n >= 5 && 0 < k < n - 1
    ensures i + 1 < n - 1 && Without(first, step, n, k)[i + 1] == Without(first, step, n, k)[i] + step
  {
    WithoutSplit(first, step, n, k);
    if k >= 2 {
      TermAt(first, step, k, 0);
      TermAt(first, step, k, 1);
      i := 0;
    } else {
      TermAt(first + (k + 1) * step, step, n - k - 1, 0);
      TermAt(first + (k + 1) * step, step, n - k - 1, 1);
      i := k;
    }
  }

  lemma MonthsDiffer(a: int, b: int, step: int)
    requires b == a + step && step % 12 != 0
    ensures a % 12 != b % 12
  {
  }

  /** A column at one time of day, whose fixed interval declines, on an anniversary every few years but one. */
  ghost predicate IsYearColumn(first: int, step: int, n: nat, k: nat, month: int, day: int,
                               observed: seq<Observation>, time: TimeOfDay)
  {
    && 1 <= step <= 2000 && 5 <= n <= 2001 && 0 < k < n - 1
    && multiset(Dates(observed)) == multiset(Anniversaries(Without(first, step, n, k), month, day))
    && AllAt(observed, time) && exists status :: FixedDeclines(observed, status)
  }

  /** Year recovery through the entry point, in any order: the deleted anniversary, or an error where it is no date. */
  lemma YearColumnRecovery(first: int, step: int, n: nat, k: nat, month: int, day: int,
                           observed: seq<Observation>, time: TimeOfDay)
    requires IsYearColumn(first, step, n, k, month, day, observed, time)
    ensures var gone := Date(first + k * step, month, day);
      if IsDate(gone) then GivesBack(Discover(observed), CalendarYears, gone, time)
      else Discover(observed) == Raised(NoSuchDate)
  {
    var status :| FixedDeclines(observed, status);
    CalendarsAnswer(observed, status);
    var dates := Dates(observed);
    AnniversariesSort(Without(first, step, n, k), month, day, observed) by { WithoutIncreases(first, step, n, k); }
    YearRecovery(first, step, n, k, month, day);
    hide FixedDeclines, TryMonths, TryYears, SortedDates, Repeats, Discover, Dates, Without, AllAt, Ordinal,
         Anniversaries;
  }

  /** Whatever their order, the observed anniversaries sort by year, without repeats. */
  lemma AnniversariesSort(years: seq<int>, month: int, day: int, observed: seq<Observation>)
    requires Increasing(years) && multiset(Dates(observed)) == multiset(Anniversaries(years, month, day))
    ensures SortedDates(Dates(observed)) == Anniversaries(years, month, day) && Repeats(Dates(observed)) == 0
  {
    var dates, inOrder := Dates(observed), Anniversaries(years, month, day);
    SameMembers(dates, inOrder);
    forall d | d in inOrder ensures IsDate(d) { DatesAreDates(observed, d); }
    FilterMapPermutation(dates, inOrder, DateCode);
    AnniversariesIncrease(years, month, day);
    SortUniquePermutation(Codes(dates), Codes(inOrder));
    IncreasingUnique(SortUnique(Codes(inOrder)), Codes(inOrder));
    ExcessPermutation(Codes(inOrder), Codes(dates), Codes(inOrder));
    ExcessZero(Codes(inOrder), Codes(inOrder));
    DecodeCodes(inOrder);
  }

  lemma DatesAreDates(observed: seq<Observation>, d: Date)
    requires d in Dates(observed)
    ensures IsDate(d)
  {
    FilterMapMember(observed, DateOf, d);
  }

  lemma AnniversariesIncrease(years: seq<int>, month: int, day: int)
    requires Increasing(years)
    ensures Increasing(Codes(Anniversaries(years, month, day)))
  {
    var dates := Anniversaries(years, month, day);
    CodesLength(dates);
    forall i, j | 0 <= i < j < |dates| ensures Codes(dates)[i] < Codes(dates)[j] {
      CodesAt(dates, i);
      CodesAt(dates, j);
    }
  }

  // --- an example: the month-ends of January to June 2023 without April's ------------------------------------------

  function SpringColumn(): seq<Observation> {
    [Day(Date(2023, 1, 31)), Day(Date(2023, 2, 28)), Day(Date(2023, 3, 31)), Day(Date(2023, 5, 31)),
     Day(Date(2023, 6, 30))]
  }

  function SpringInstants(a: int): seq<int> {
    [a, a + 28 * DAY, a + 59 * DAY, a + 120 * DAY, a + 150 * DAY]
  }

  lemma {:induction false} SpringReads()
    ensures var c, first := SpringColumn(), Ordinal(Date(2023, 1, 31)) - 1;
      && FilterMap(c, Readable) == c && FilterMap(c, InstantOf) == SpringInstants(first * DAY)
      && Dates(c) == [Date(2023, 1, 31), Date(2023, 2, 28), Date(2023, 3, 31), Date(2023, 5, 31), Date(2023, 6, 30)]
  {
    var c, first := SpringColumn(), Ordinal(Date(2023, 1, 31));
    assert Ordinal(Date(2023, 2, 28)) == first + 28 && Ordinal(Date(2023, 3, 31)) == first + 59;
    assert Ordinal(Date(2023, 5, 31)) == first + 120 && Ordinal(Date(2023, 6, 30)) == first + 150;
    hide Ordinal;
    assert c[1..] == [c[1], c[2], c[3], c[4]] && c[1..][1..] == [c[2], c[3], c[4]];
    assert c[1..][1..][1..] == [c[3], c[4]] && c[1..][1..][1..][1..] == [c[4]] && c[1..][1..][1..][1..][1..] == [];
  }

  lemma SpringDiffs(a: int)
    ensures Diffs(SpringInstants(a)) == [28 * DAY, 31 * DAY, 61 * DAY, 30 * DAY]
  {
    var s := SpringInstants(a);
    var t, u, v := s[1..], s[2..], s[3..];
    assert t[1..] == u && u[1..] == v && |v[1..]| == 1;
    assert Diffs(v) == [30 * DAY] + Diffs(v[1..]);
    assert Diffs(u) == [61 * DAY] + Diffs(v);
    assert Diffs(t) == [31 * DAY] + Diffs(u);
  }

  lemma SpringCounts(d: int)
    ensures Count([28 * DAY, 31 * DAY, 61 * DAY, 30 * DAY], d) <= 1
  {
    var s := [28 * DAY, 31 * DAY, 61 * DAY, 30 * DAY];
    assert Increasing([28 * DAY, 31 * DAY, 61 * DAY]);
    assert s == [28 * DAY, 31 * DAY, 61 * DAY] + [30 * DAY] && [30 * DAY][1..] == [];
    CountAppend([28 * DAY, 31 * DAY, 61 * DAY], [30 * DAY], d);
    IncreasingIsDistinct([28 * DAY, 31 * DAY, 61 * DAY], d);
  }

  /** No two of the four intervals are equal, so there is no fixed one. */
  lemma SpringDeclines(a: int)
    ensures Increasing(SpringInstants(a)) && Fixed(SpringInstants(a), 0) == Declined(NoRelationship)
  {
    var s := SpringInstants(a);
    SpringDiffs(a);
    DiffsPositive(s);
    SpringCounts(Mode(Diffs(s)));
    hide Diffs, Mode, Count, Absent, FixedSlots;
  }

  lemma SpringFixedDeclines()
    ensures FixedDeclines(SpringColumn(), NoRelationship) && AllAt(SpringColumn(), 0)
  {
    var a := (Ordinal(Date(2023, 1, 31)) - 1) * DAY;
    SpringReads();
    SpringDeclines(a);
    hide Ordinal;
    SpringIsUniform();
    assert |SpringInstants(a)| == 5;
    hide SpringInstants, SpringColumn;
    DistinctDecline(SpringColumn(), SpringInstants(a), NoRelationship);
  }

  lemma SpringIsUniform()
    ensures |SpringColumn()| == 5 && AllAt(SpringColumn(), 0) && !MixesOffsets(SpringColumn())
  {
    forall o | o in SpringColumn() ensures o.Day? { }
  }

  lemma DistinctDecline(observed: seq<Observation>, instants: seq<int>, status: Status)
    requires FilterMap(observed, Readable) == observed && |observed| >= 5 && !MixesOffsets(observed)
    requires FilterMap(observed, InstantOf) == instants && |instants| >= 2 && Increasing(instants)
    requires Fixed(instants, 0) == Declined(status)
    ensures FixedDeclines(observed, status)
  {
    IncreasingUnique(SortUnique(instants), instants);
    ExcessZero(instants, instants);
    FilterMapCount(observed, Readable, ReadableAt(observed));
    hide FilterMap, SortUnique, Excess, Fixed, Increasing, MixesOffsets;
  }

  lemma SpringIndexes()
    ensures Without(24_276, 1, 6, 3) == [24_276, 24_277, 24_278, 24_280, 24_281]
  {
    assert Terms(24_281, 1, 1) == [24_281] + Terms(24_282, 1, 0);
    assert Terms(24_280, 1, 2) == [24_280, 24_281];
    assert Without(24_279, 1, 3, 0) == Terms(24_280, 1, 2);
    assert Without(24_278, 1, 4, 1) == [24_278] + Without(24_279, 1, 3, 0);
    assert Without(24_277, 1, 5, 2) == [24_277] + Without(24_278, 1, 4, 1);
  }

  lemma SpringEnds()
    ensures forall m :: m in [24_276, 24_277, 24_278, 24_280, 24_281] ==> Fits(m, 31, true)
    ensures DatesAt([24_276, 24_277, 24_278, 24_280, 24_281], 31, true)
         == [Date(2023, 1, 31), Date(2023, 2, 28), Date(2023, 3, 31), Date(2023, 5, 31), Date(2023, 6, 30)]
    ensures Fits(24_279, 31, true) && DateAt(24_279, 31, true) == Date(2023, 4, 30)
  {
    assert !IsLeap(2023);
  }

  lemma SpringIsMonthColumn()
    ensures IsMonthColumn(24_276, 1, 6, 3, 31, true, SpringColumn(), 0)
  {
    SpringReads();
    SpringEnds();
    SpringIndexes();
    SpringFixedDeclines();
    hide FixedDeclines, Dates, DatesAt, Without, Fits, SpringColumn, AllAt, FilterMap, SpringInstants, Ordinal;
  }

  /** The fixed interval and the years decline, and the months give April 30 back. */
  lemma MonthEndComesBack()
    ensures GivesBack(Discover(SpringColumn()), CalendarMonths, Date(2023, 4, 30), 0)
  {
    SpringEnds();
    SpringIsMonthColumn();
    var midnight: TimeOfDay := 0;
    hide *;
    MonthColumnRecovery(24_276, 1, 6, 3, 31, true, SpringColumn(), midnight);
    ComesBack(SpringColumn(), DateAt(24_279, 31, true), midnight);
  }

  lemma ComesBack(observed: seq<Observation>, gone: CalendarDate, time: TimeOfDay)
    requires MonthComesBack(observed, gone, true, time)
    ensures GivesBack(Discover(observed), CalendarMonths, gone, time)
  {
    hide GivesBack, Discover, Dates, MonthEnds, IsMonthEnd;
  }

  // --- what a candidate is reported with ----------------------------------------------------------------------------

  /** The counts and ratios of a fixed interval's evidence, over the set of instants. */
  lemma FixedIsReported(found: Outcome<int>, unique: seq<int>, duplicates: nat, observed: nat)
    requires found.Found? && |unique| >= 2 && Increasing(unique)
    ensures var e, support := FixedEvidence(found, unique, duplicates, observed), |Jumps(ValuesOf(unique), found.step)|;
      && e.strategy == found.strategy && e.kind == FixedInterval && e.instant == found.value && e.step == found.step
      && e.observedCount == observed && e.duplicateCount == duplicates
      && e.gapCount == (if found.strategy == TemporalGap then 1 else 0)
      && e.supporting == support && e.contradicting == |unique| - 1 - support
      && IsShare(e.consistency, support, |unique| - 1)
      && IsDiscounted(e.confidence, |unique|)
  {
    DiffsPositive(unique);
    DiffsCountJumps(unique, found.step);
    ConfidenceIsDiscounted(|unique|);
    hide Jumps, Diffs, Count, ValuesOf, Increasing, Confidence, IsDiscounted, IsShare;
    ShareIs(Count(Diffs(unique), found.step), |unique| - 1);
  }

  ghost predicate IsShare(share: real, part: nat, whole: int) {
    share * whole as real == part as real
  }

  lemma ShareIs(part: nat, whole: int)
    requires whole > 0
    ensures IsShare(part as real / whole as real, part, whole)
  {
  }

  lemma ConfidenceIsDiscounted(distinct: nat)
    ensures IsDiscounted(Confidence(distinct), distinct)
  {
  }

  /** A sixth for every distinct value, up to one. */
  ghost predicate IsDiscounted(confidence: real, distinct: nat) {
    if distinct >= 6 then confidence == 1.0 else 6.0 * confidence == distinct as real
  }

  lemma CalendarIsReported(found: Outcome<Date>, kind: Kind, time: TimeOfDay, distinct: nat, duplicates: nat,
                           observed: nat)
    requires found.Found? && IsDate(found.value)
    ensures var e := CalendarEvidence(found, kind, time, distinct, duplicates, observed);
      && e.observedCount == observed && e.duplicateCount == duplicates
      && e.gapCount == (if found.strategy == TemporalGap then 1 else 0)
      && e.supporting == distinct && e.contradicting == 0 && e.consistency == 1.0
      && IsDiscounted(e.confidence, distinct)
  {
    hide Ordinal, IsDate;
  }
}
