/** When the date and time engine raises: the exact conditions, for every column, and one input for each place. */
module TemporalErrors {
  import opened Collections
  import opened Progression
  import opened Calendar
  import opened TemporalEvidence
  import opened TemporalRecovery

  // --- whole years ------------------------------------------------------------------------

  /** The dates share month and day, and exactly this year is missing from their run of years. */
  ghost predicate MissesYear(dates: seq<Date>, duplicates: nat, year: int) {
    && |dates| >= 2 && SameMonthDay(dates) && Diffs(Years(dates)) != []
    && var gap := Place(Years(dates), duplicates, MAX_EXPECTED_YEARS);
       gap.Found? && gap.strategy == TemporalGap && gap.value == year
  }

  predicate IsLeapDay(d: Date) { d.month == 2 && d.day == 29 }

  /** The missing year has no such date. */
  ghost predicate YearsFail(dates: seq<Date>, duplicates: nat) {
    exists y :: MissesYear(dates, duplicates, y) && (y > MAX_YEAR || (IsLeapDay(dates[0]) && !IsLeap(y)))
  }

  /** The year strategy raises exactly when the one missing year is out of the calendar, or common for a leap day. */
  lemma YearsFailIff(dates: seq<Date>, duplicates: nat)
    requires forall d :: d in dates ==> IsDate(d)
    ensures TryYears(dates, duplicates).Failed? <==> YearsFail(dates, duplicates)
    ensures TryYears(dates, duplicates).Failed? ==> TryYears(dates, duplicates).error == NoSuchDate
  {
    if |dates| >= 2 && SameMonthDay(dates) {
      DiffsExist(Years(dates));
      PlaceNeverFails(Years(dates), duplicates, MAX_EXPECTED_YEARS);
      var place := Place(Years(dates), duplicates, MAX_EXPECTED_YEARS);
      if place.Found? && place.strategy == TemporalGap {
        PlacedIndex(Years(dates), duplicates, MAX_EXPECTED_YEARS);
        assert dates[0] in dates;
        MissingDate(dates[0], place.value);
        assert MissesYear(dates, duplicates, place.value) by { hide Place, Diffs, Years; }
      }
      hide Place, Diffs, Years, IsDate, SameMonthDay, IsLeap, IndexIsPlaced;
    }
  }

  lemma PlaceNeverFails(indexes: seq<int>, duplicates: nat, limit: int)
    requires |indexes| >= 2 && Diffs(indexes) != []
    ensures !Place(indexes, duplicates, limit).Failed?
  {
    hide Absent, CalendarSlots, Mode, Diffs;
  }

  /** A later year lacks a date's anniversary only out of the calendar or for a leap day. */
  lemma MissingDate(d: CalendarDate, year: int)
    requires year >= d.year
    ensures MakeDate(year, d.month, d.day).None? <==> year > MAX_YEAR || (IsLeapDay(d) && !IsLeap(year))
  {
    hide IsLeap;
  }

  // --- fixed intervals ----------------------------------------------------------------------

  ghost predicate IsFixedSlot(lo: int, hi: int, step: int, x: int)
    requires step > 0
  {
    lo <= x <= hi && (x - lo) % step == 0
  }

  /** No slot lies between the last one within the range and the one after it. */
  lemma LastSlot(lo: int, hi: int, step: int, x: int)
    requires step > 0 && lo <= hi
    ensures IsFixedSlot(lo, hi, step, SlotAfter(lo, hi, step) - step)
    ensures IsFixedSlot(lo, hi, step, x) ==> x <= SlotAfter(lo, hi, step) - step
  {
    var q := (hi - lo) / step;
    assert hi - lo == q * step + (hi - lo) % step;
    StepOver(q, step);
    DivideWithin(q, 0, step);
    MulLe(0, q, step);
    if IsFixedSlot(lo, hi, step, x) {
      var p := (x - lo) / step;
      assert x - lo == p * step;
      QuotientAtLeast(p, hi - lo, step);
      MulLe(p, q, step);
    }
  }

  /** The differences agree well enough, and the span is short enough, for the slots to be built. */
  ghost predicate BuildsSlots(unique: seq<int>, step: int)
    requires unique != []
  {
    && Diffs(unique) != [] && Mode(Diffs(unique)) == step && step > 0
    && 2 * Count(Diffs(unique), step) >= |Diffs(unique)|
    && unique[|unique| - 1] - unique[0] <= (MAX_EXPECTED_RANGE_SLOTS - 1) * step
  }

  /** Some slot of the range has no next slot in the calendar. */
  ghost predicate SlotWithoutNext(lo: int, hi: int, step: int)
    requires step > 0
  {
    exists x :: IsFixedSlot(lo, hi, step, x) && x + step > MAX_INSTANT
  }

  /** Every slot is observed, one value twice, and the last value has no next one in the calendar. */
  ghost predicate NextWithoutRoom(unique: seq<int>, duplicates: nat, step: int)
    requires unique != [] && step > 0
  {
    && unique[|unique| - 1] + step > MAX_INSTANT && duplicates == 1
    && Count(Diffs(unique), step) >= MIN_SUPPORTING_TRANSITIONS
    && forall x :: IsFixedSlot(unique[0], unique[|unique| - 1], step, x) ==> x in unique
  }

  ghost predicate FixedFails(unique: seq<int>, duplicates: nat)
    requires unique != []
  {
    exists step :: BuildsSlots(unique, step)
      && (SlotWithoutNext(unique[0], unique[|unique| - 1], step) || NextWithoutRoom(unique, duplicates, step))
  }

  /**
    The fixed-interval strategy raises exactly when the slots are built and a slot has no next one, or all slots are
    observed with one duplicate and the last value has no next one. In either case one step leaves the calendar.
  */
  lemma FixedFailsIff(unique: seq<int>, duplicates: nat)
    requires |unique| >= 2 && Increasing(unique)
    ensures Fixed(unique, duplicates).Failed? <==> FixedFails(unique, duplicates)
    ensures Fixed(unique, duplicates).Failed? ==>
      && Fixed(unique, duplicates).error == OutOfRange
      && Diffs(unique) != [] && unique[|unique| - 1] + Mode(Diffs(unique)) > MAX_INSTANT
  {
    DiffsPositive(unique);
    var step := Mode(Diffs(unique));
    var lo, hi := unique[0], unique[|unique| - 1];
    hide Diffs, Mode, Count, SlotAfter, SlotWithoutNext, IsFixedSlot, FixedSlots, Absent, Increasing, Fixed;
    LastSlotDecides(lo, hi, step);
    FixedGaps(unique, step);
    FixedWhenBuilt(unique, duplicates, step);
    assert BuildsSlots(unique, step) ==> (Fixed(unique, duplicates).Failed? <==>
      SlotWithoutNext(lo, hi, step) || NextWithoutRoom(unique, duplicates, step));
    hide NextWithoutRoom;
    assert forall s :: BuildsSlots(unique, s) ==> s == step;
  }

  lemma FixedWhenBuilt(unique: seq<int>, duplicates: nat, step: int)
    requires |unique| >= 2 && Increasing(unique) && Diffs(unique) != [] && Mode(Diffs(unique)) == step && step > 0
    ensures !BuildsSlots(unique, step) ==> Fixed(unique, duplicates).Declined?
    ensures Fixed(unique, duplicates).Failed? ==> Fixed(unique, duplicates).error == OutOfRange
    ensures var lo, hi := unique[0], unique[|unique| - 1];
      BuildsSlots(unique, step) ==> (Fixed(unique, duplicates).Failed? <==>
        || SlotAfter(lo, hi, step) > MAX_INSTANT
        || (Absent(FixedSlots(lo, hi, step), unique) == [] && duplicates == 1 && hi + step > MAX_INSTANT
            && Count(Diffs(unique), step) >= MIN_SUPPORTING_TRANSITIONS))
  {
    hide Diffs, Mode, Count, SlotAfter, FixedSlots, Absent, Increasing;
  }

  lemma LastSlotDecides(lo: int, hi: int, step: int)
    requires step > 0 && lo <= hi
    ensures SlotWithoutNext(lo, hi, step) <==> SlotAfter(lo, hi, step) > MAX_INSTANT
    ensures SlotAfter(lo, hi, step) <= hi + step
  {
    hide SlotAfter;
    var last := SlotAfter(lo, hi, step) - step;
    LastSlot(lo, hi, step, lo);
    if last + step > MAX_INSTANT { assert IsFixedSlot(lo, hi, step, last); }
    if x :| IsFixedSlot(lo, hi, step, x) && x + step > MAX_INSTANT { LastSlot(lo, hi, step, x); }
  }

  lemma FixedGaps(unique: seq<int>, step: int)
    requires unique != [] && step > 0
    ensures Absent(FixedSlots(unique[0], unique[|unique| - 1], step), unique) == [] <==>
      forall x :: IsFixedSlot(unique[0], unique[|unique| - 1], step, x) ==> x in unique
  {
    var lo, hi := unique[0], unique[|unique| - 1];
    forall x ensures x in FixedSlots(lo, hi, step) <==> IsFixedSlot(lo, hi, step, x) {
      RangeMembers(lo, hi + 1, step, x);
    }
    var gaps := Absent(FixedSlots(lo, hi, step), unique);
    hide FixedSlots, IsFixedSlot, Absent;
    if gaps != [] {
      var x := gaps[0];
      assert x in gaps;
    }
  }

  // --- the entry point --------------------------------------------------------------------------

  function Parsed(observed: seq<Observation>): seq<Observation> { FilterMap(observed, Readable) }

  function Distinct(observed: seq<Observation>): (r: seq<int>)
    ensures Increasing(r) && forall x :: x in r <==> x in Instants(observed)
  {
    SortUnique(Instants(observed))
  }

  function InstantRepeats(observed: seq<Observation>): nat { Excess(Distinct(observed), Instants(observed)) }

  function DateCodes(observed: seq<Observation>): seq<int> { FilterMap(Parsed(observed), CodeOf) }

  function Dates(observed: seq<Observation>): seq<Date> { Decode(SortUnique(DateCodes(observed))) }

  function DateRepeats(observed: seq<Observation>): nat { Excess(SortUnique(DateCodes(observed)), DateCodes(observed)) }

  /** Comparable observations, enough of them, with at least two distinct instants. */
  ghost predicate IsProgressionLike(observed: seq<Observation>) {
    Uniform(Parsed(observed)) && |Parsed(observed)| >= MIN_OBSERVATIONS && |Distinct(observed)| >= 2
  }

  lemma {:induction false} DecodedAreDates(codes: seq<int>)
    requires forall c :: c in codes ==> IsDate(FromCode(c))
    ensures forall d :: d in Decode(codes) ==> IsDate(d)
  {
    hide IsDate, FromCode;
    if codes != [] {
      var c := codes[0];
      assert c in codes && codes == [c] + codes[1..];
      DecodedAreDates(codes[1..]);
    }
  }

  lemma DatesAreDates(observed: seq<Observation>)
    ensures forall d :: d in Dates(observed) ==> IsDate(d)
  {
    var codes := DateCodes(observed);
    forall c | c in codes ensures IsDate(FromCode(c)) {
      FilterMapMember(Parsed(observed), CodeOf, c);
      var o :| o in Parsed(observed) && CodeOf(o) == Some(c);
      CodeRoundTrip(o.date);
    }
    hide FilterMap, IsDate, FromCode;
    DecodedAreDates(SortUnique(codes));
  }

  /**
    For every column: the engine raises OverflowError exactly when the fixed-interval strategy fails, and ValueError
    exactly when that strategy declines, all times of day agree, and the one missing year lacks the common date.
  */
  lemma DiscoverRaisesIff(observed: seq<Observation>)
    ensures Discover(observed) == Raised(OutOfRange) <==>
      IsProgressionLike(observed) && FixedFails(Distinct(observed), InstantRepeats(observed))
    ensures Discover(observed) == Raised(NoSuchDate) <==>
      && IsProgressionLike(observed) && Fixed(Distinct(observed), InstantRepeats(observed)).Declined?
      && OneTimeOfDay(Parsed(observed)) && YearsFail(Dates(observed), DateRepeats(observed))
  {
    DatesAreDates(observed);
    hide Uniform, OneTimeOfDay, Fixed, FixedFails, YearsFail, TryYears, TryMonths, FilterMap, SortUnique, Excess,
         Decode, IsDate, FixedEvidence, CalendarEvidence, Increasing;
    if |Distinct(observed)| >= 2 { FixedFailsIff(Distinct(observed), InstantRepeats(observed)); }
    YearsFailIff(Dates(observed), DateRepeats(observed));
  }

  // --- columns that never raise ----------------------------------------------------------------------

  lemma EarlyInstant(d: CalendarDate, time: TimeOfDay)
    requires d.year <= 4999
    ensures 0 <= Instant(d, time) && 2 * Instant(d, time) <= MAX_INSTANT
  {
    InstantFits(d, time);
    WithinTheYear(d);
    hide DaysBeforeMonth, IsLeap;
    YearsIncrease(d.year, 4999);
    assert DaysBeforeYear(4999) == 1_825_482;
  }

  lemma {:induction false} DiffFitsSpan(s: seq<int>, d: int)
    requires Increasing(s) && d in Diffs(s)
    ensures s != [] && d <= s[|s| - 1] - s[0]
  {
    assert |s| >= 2;
    if d != s[1] - s[0] {
      DiffFitsSpan(s[1..], d);
    }
  }

  lemma {:induction false} DecodedAt(codes: seq<int>, i: nat)
    requires i < |codes|
    ensures Decode(codes)[i] == FromCode(codes[i])
  {
    if i > 0 { DecodedAt(codes[1..], i - 1); }
  }

  /** The dates are those of the readable observations. */
  lemma DatesMembers(observed: seq<Observation>, d: Date)
    ensures d in Dates(observed) <==> exists o :: o in Parsed(observed) && !o.Unreadable? && o.date == d
  {
    var codes := SortUnique(DateCodes(observed));
    if d in Dates(observed) {
      var i :| 0 <= i < |Dates(observed)| && Dates(observed)[i] == d;
      DecodedAt(codes, i);
      var code := codes[i];
      assert code in codes;
      FilterMapMember(Parsed(observed), CodeOf, code);
      var o :| o in Parsed(observed) && CodeOf(o) == Some(code);
      CodeRoundTrip(o.date);
    }
    if o :| o in Parsed(observed) && !o.Unreadable? && o.date == d {
      CodeRoundTrip(o.date);
      FilterMapMember(Parsed(observed), CodeOf, Code(d));
      assert CodeOf(o) == Some(Code(d));
      DecodeMembers(codes, Code(d));
    }
  }

  lemma {:induction false} YearAt(dates: seq<Date>, i: nat)
    requires i < |dates|
    ensures Years(dates)[i] == dates[i].year
  {
    if i > 0 { YearAt(dates[1..], i - 1); }
  }

  lemma {:induction false} ParsedOf(observed: seq<Observation>, o: Observation)
    ensures o in Parsed(observed) <==> o in observed && !o.Unreadable?
  {
    FilterMapMember(observed, Readable, o);
  }

  lemma OrdinaryInstants(observed: seq<Observation>)
    requires forall o :: o in observed && !o.Unreadable? ==> o.date.year <= 4999
    requires IsProgressionLike(observed)
    ensures !Fixed(Distinct(observed), InstantRepeats(observed)).Failed?
  {
    var unique := Distinct(observed);
    var lo, hi := unique[0], unique[|unique| - 1];
    forall x | x in unique ensures 0 <= x && 2 * x <= MAX_INSTANT {
      FilterMapMember(Parsed(observed), InstantOf, x);
      var o :| o in Parsed(observed) && InstantOf(o) == Some(x);
      ParsedOf(observed, o);
      EarlyInstant(o.date, TimeOf(o));
    }
    assert lo in unique && hi in unique;
    FixedFailsIff(unique, InstantRepeats(observed));
    hide Fixed, Distinct, FixedFails;
    if Fixed(unique, InstantRepeats(observed)).Failed? {
      DiffFitsSpan(unique, Mode(Diffs(unique)));
    }
  }

  lemma OrdinaryDates(observed: seq<Observation>)
    requires forall o :: o in observed && !o.Unreadable? ==> o.date.year <= 4999
    requires exists o :: o in Parsed(observed) && !o.Unreadable? && !IsLeapDay(o.date)
    ensures !YearsFail(Dates(observed), DateRepeats(observed))
  {
    var dates, repeats := Dates(observed), DateRepeats(observed);
    forall d | d in dates ensures d.year <= 4999 {
      DatesMembers(observed, d);
      var o :| o in Parsed(observed) && !o.Unreadable? && o.date == d;
      ParsedOf(observed, o);
    }
    var plain :| plain in Parsed(observed) && !plain.Unreadable? && !IsLeapDay(plain.date);
    DatesMembers(observed, plain.date);
    hide Dates, DateRepeats, Parsed;
    forall y | MissesYear(dates, repeats, y) ensures y <= MAX_YEAR && !IsLeapDay(dates[0]) {
      MissedYearIsNear(dates, repeats, y);
      assert dates[|dates| - 1] in dates;
    }
  }

  lemma MissedYearIsNear(dates: seq<Date>, duplicates: nat, year: int)
    requires MissesYear(dates, duplicates, year)
    ensures year < dates[|dates| - 1].year + MAX_EXPECTED_YEARS
  {
    PlacedIndex(Years(dates), duplicates, MAX_EXPECTED_YEARS);
    YearAt(dates, |dates| - 1);
    hide Diffs, Years, Absent, CalendarSlots, Mode;
  }

  lemma OnlyTwoErrors(r: Result)
    ensures r.Result? || r == Raised(OutOfRange) || r == Raised(NoSuchDate)
  {
    if r.Raised? {
      match r.error
      case OutOfRange =>
      case NoSuchDate =>
    }
  }

  /** Dates up to the year 4999, not all of them leap days, never make the engine raise. */
  lemma OrdinaryColumnsNeverRaise(observed: seq<Observation>)
    requires forall o :: o in observed && !o.Unreadable? ==> o.date.year <= 4999
    requires exists o :: o in observed && !o.Unreadable? && !IsLeapDay(o.date)
    ensures Discover(observed).Result?
  {
    var o :| o in observed && !o.Unreadable? && !IsLeapDay(o.date);
    ParsedOf(observed, o);
    DiscoverRaisesIff(observed);
    OrdinaryDates(observed);
    if IsProgressionLike(observed) {
      OrdinaryInstants(observed);
      FixedFailsIff(Distinct(observed), InstantRepeats(observed));
    }
    hide Discover, FixedFails, YearsFail, IsProgressionLike, Fixed;
    OnlyTwoErrors(Discover(observed));
  }

  // --- one input for each place -----------------------------------------------------------------------

  type DayOfDecember = d: int | 1 <= d <= 31 witness 1

  /** Days of December 9999. */
  function December(days: seq<DayOfDecember>): (column: seq<Observation>)
    ensures |column| == |days|
  {
    if days == [] then [] else [Day(Date(9999, 12, days[0]))] + December(days[1..])
  }

  function DecemberInstants(days: seq<DayOfDecember>): (r: seq<int>)
    ensures |r| == |days| && forall i :: 0 <= i < |r| ==> r[i] == (3_652_027 + days[i]) * DAY
  {
    if days == [] then [] else [(3_652_027 + days[0]) * DAY] + DecemberInstants(days[1..])
  }

  lemma {:induction false} DecemberReads(days: seq<DayOfDecember>)
    ensures Parsed(December(days)) == December(days) && Instants(December(days)) == DecemberInstants(days)
    ensures forall o :: o in December(days) ==> o.Day?
  {
    if days != [] {
      DecemberReads(days[1..]);
      DecemberStart(9999);
      assert Instant(Date(9999, 12, days[0]), 0) == (3_652_027 + days[0]) * DAY;
      hide Instant;
    }
  }

  lemma DecemberRaises(days: seq<DayOfDecember>, unique: seq<int>, step: int, duplicates: nat)
    requires |days| >= 5 && |unique| >= 2 && Increasing(unique)
    requires SortUnique(DecemberInstants(days)) == unique && forall x :: x in unique ==> x in DecemberInstants(days)
    requires Excess(unique, DecemberInstants(days)) == duplicates
    requires BuildsSlots(unique, step)
    requires SlotWithoutNext(unique[0], unique[|unique| - 1], step) || NextWithoutRoom(unique, duplicates, step)
    ensures Discover(December(days)) == Raised(OutOfRange)
  {
    hide Discover, December, DecemberInstants, Instants, Parsed, SlotWithoutNext, NextWithoutRoom, BuildsSlots,
         SortUnique, Excess, Increasing, Fixed, YearsFail, OneTimeOfDay;
    hide Uniform;
    DecemberReads(days);
    DaysAreUniform(December(days));
    assert Distinct(December(days)) == unique && InstantRepeats(December(days)) == duplicates;
    FixedFailsBy(unique, duplicates, step);
    hide FixedFails, Distinct, InstantRepeats, Increasing;
    RaisesWhenFixedFails(December(days));
  }

  lemma DaysAreUniform(column: seq<Observation>)
    requires forall o :: o in column ==> o.Day?
    ensures Uniform(column)
  {
    if column != [] { assert column[0] in column; }
  }

  lemma FixedFailsBy(unique: seq<int>, duplicates: nat, step: int)
    requires unique != [] && BuildsSlots(unique, step)
    requires SlotWithoutNext(unique[0], unique[|unique| - 1], step) || NextWithoutRoom(unique, duplicates, step)
    ensures FixedFails(unique, duplicates)
  {
    hide BuildsSlots, SlotWithoutNext, NextWithoutRoom;
  }

  lemma RaisesWhenFixedFails(observed: seq<Observation>)
    requires IsProgressionLike(observed) && FixedFails(Distinct(observed), InstantRepeats(observed))
    ensures Discover(observed) == Raised(OutOfRange)
  {
    hide *;
    DiscoverRaisesIff(observed);
  }

  lemma ConsecutiveBuilds(first: int, step: int, n: nat)
    requires step > 0 && 2 <= n <= MAX_EXPECTED_RANGE_SLOTS
    ensures Increasing(Terms(first, step, n)) && BuildsSlots(Terms(first, step, n), step)
    ensures Terms(first, step, n)[0] == first && Terms(first, step, n)[n - 1] == first + (n - 1) * step
  {
    hide Terms, Diffs, Mode, Count;
    ModeOfTerms(first, step, n);
    MulLe(n - 1, MAX_EXPECTED_RANGE_SLOTS - 1, step);
  }

  /** The slot loop: five consecutive days that end the calendar. */
  lemma LastDaysRaise()
    ensures Discover(December([27, 28, 29, 30, 31])) == Raised(OutOfRange)
  {
    var days: seq<DayOfDecember>, first := [27, 28, 29, 30, 31], 3_652_054 * DAY;
    var unique := Terms(first, DAY, 5);
    hide Terms, Discover, BuildsSlots, Increasing, SortUnique, Excess, SlotWithoutNext;
    forall i | 0 <= i < 5 ensures unique[i] == DecemberInstants(days)[i] { TermAt(first, DAY, 5, i); }
    assert unique == DecemberInstants(days);
    ConsecutiveBuilds(first, DAY, 5);
    IncreasingUnique(SortUnique(unique), unique);
    ExcessZero(unique, unique);
    LastSlotHasNoNext(first, 3_652_058 * DAY);
    DecemberRaises(days, unique, DAY, 0);
  }

  lemma LastSlotHasNoNext(lo: int, hi: int)
    requires lo <= hi && (hi - lo) % DAY == 0 && hi + DAY > MAX_INSTANT
    ensures SlotWithoutNext(lo, hi, DAY)
  {
    assert IsFixedSlot(lo, hi, DAY, hi);
  }

  /** The next value: every second day but the last, one day twice, and no room for another step. */
  lemma NextDayRaises()
    ensures Discover(December([23, 25, 27, 29, 30, 30])) == Raised(OutOfRange)
  {
    var days: seq<DayOfDecember>, short: seq<DayOfDecember> := [23, 25, 27, 29, 30, 30], [23, 25, 27, 29, 30];
    var instants, unique, last := DecemberInstants(days), DecemberInstants(short), 3_652_057 * DAY;
    assert instants == unique + [last];
    assert unique[4] == last && last in unique;
    assert Increasing(unique);
    hide Discover, December, DecemberInstants, SortUnique, Excess, Increasing, BuildsSlots, NextWithoutRoom;
    OneRepeat(unique, last, instants);
    OddDays(unique);
    DecemberRaises(days, unique, 2 * DAY, 1);
  }

  lemma OddDays(unique: seq<int>)
    requires |unique| == 5 && unique[0] == 3_652_050 * DAY && unique[1] == 3_652_052 * DAY
    requires unique[2] == 3_652_054 * DAY
    requires unique[3] == 3_652_056 * DAY && unique[4] == 3_652_057 * DAY
    ensures BuildsSlots(unique, 2 * DAY) && NextWithoutRoom(unique, 1, 2 * DAY)
  {
    var step := 2 * DAY;
    var t, u, v := unique[1..], unique[2..], unique[3..];
    assert t[1..] == u && u[1..] == v && |v[1..]| == 1;
    assert Diffs(v) == [DAY];
    assert Diffs(u) == [step] + Diffs(v);
    assert Diffs(t) == [step] + Diffs(u);
    assert Diffs(unique) == [step, step, step, DAY];
    FourMode(step, DAY);
    hide Diffs, Mode, Count;
    forall x | IsFixedSlot(unique[0], unique[4], step, x) ensures x in unique {
      var k := (x - unique[0]) / step;
      assert x == unique[0] + k * step && 0 <= k <= 3;
      assert x == unique[k];
    }
  }

  lemma FourMode(p: int, q: int)
    requires p != q
    ensures Mode([p, p, p, q]) == p && Count([p, p, p, q], p) == 3
  {
    var d := [p, p, p, q];
    var e, f, g := [p, p, q], [p, q], [q];
    forall y ensures Count(d, y) == if y == p then 3 else if y == q then 1 else 0 {
      assert d[1..] == e && e[1..] == f && f[1..] == g && g[1..] == [];
      assert Count(g, y) == if y == q then 1 else 0;
      assert Count(f, y) == if y == p then 1 else if y == q then 1 else 0;
      assert Count(e, y) == if y == p then 2 else if y == q then 1 else 0;
    }
    ModeIs(d, p);
  }

  function LeapColumn(): seq<Observation> {
    [Day(Date(1892, 2, 29)), Day(Date(1896, 2, 29)), Day(Date(1904, 2, 29)), Day(Date(1908, 2, 29)),
     Day(Date(1912, 2, 29))]
  }

  lemma LeapOrdinals()
    ensures Ordinal(Date(1892, 2, 29)) == 690_733
    ensures Ordinal(Date(1896, 2, 29)) == 690_733 + 1461
    ensures Ordinal(Date(1904, 2, 29)) == 690_733 + 4382
    ensures Ordinal(Date(1908, 2, 29)) == 690_733 + 5843
    ensures Ordinal(Date(1912, 2, 29)) == 690_733 + 7304
  {
  }

  function FiveInstants(a: int): seq<int> {
    [a, a + 1461 * DAY, a + 4382 * DAY, a + 5843 * DAY, a + 7304 * DAY]
  }

  lemma FiveMode(p: int, q: int)
    requires p != q
    ensures Mode([p, q, p, p]) == p && Count([p, q, p, p], p) == 3
  {
    var d := [p, q, p, p];
    var e, f, g := [q, p, p], [p, p], [p];
    forall y ensures Count(d, y) == if y == p then 3 else if y == q then 1 else 0 {
      assert d[1..] == e && e[1..] == f && f[1..] == g && g[1..] == [];
      assert Count(g, y) == if y == p then 1 else 0;
      assert Count(f, y) == if y == p then 2 else 0;
      assert Count(e, y) == if y == p then 2 else if y == q then 1 else 0;
    }
    ModeIs(d, p);
  }

  lemma FiveDiffs(a: int)
    ensures Diffs(FiveInstants(a)) == [1461 * DAY, 2921 * DAY, 1461 * DAY, 1461 * DAY]
  {
    var s := FiveInstants(a);
    var t, u, v := s[1..], s[2..], s[3..];
    assert t[1..] == u && u[1..] == v && |v[1..]| == 1;
    assert Diffs(v) == [1461 * DAY] + Diffs(v[1..]);
    assert Diffs(u) == [1461 * DAY] + Diffs(v);
    assert Diffs(t) == [2921 * DAY] + Diffs(u);
  }

  lemma FiveDecline(a: int)
    requires a <= MAX_INSTANT - 10000 * DAY
    ensures Increasing(FiveInstants(a)) && Fixed(FiveInstants(a), 0) == Declined(Ambiguous)
  {
    var s, step := FiveInstants(a), 1461 * DAY;
    FiveDiffs(a);
    FiveMode(step, 2921 * DAY);
    hide Diffs, Mode, Count;
    DivideWithin(4, 1460 * DAY, step);
    FiveGaps(a);
    hide Absent, FixedSlots;
  }

  lemma FiveGaps(a: int)
    ensures |Absent(FixedSlots(a, a + 7304 * DAY, 1461 * DAY), FiveInstants(a))| > 1
  {
    var hi, step := a + 7304 * DAY, 1461 * DAY;
    var x, y := a + 2 * step, a + 3 * step;
    RangeMembers(a, hi + 1, step, x);
    RangeMembers(a, hi + 1, step, y);
    DivideWithin(2, 0, step);
    DivideWithin(3, 0, step);
    var gaps := Absent(FixedSlots(a, hi, step), FiveInstants(a));
    assert x in gaps && y in gaps;
  }

  lemma {:induction false} LeapColumnReads()
    ensures FilterMap(LeapColumn(), Readable) == LeapColumn()
    ensures FilterMap(LeapColumn(), InstantOf) == FiveInstants(690_732 * DAY)
    ensures FilterMap(LeapColumn(), CodeOf) == Codes(Anniversaries([1892, 1896, 1904, 1908, 1912], 2, 29))
  {
    LeapOrdinals();
    hide Ordinal;
    var c := LeapColumn();
    assert c[1..] == [c[1], c[2], c[3], c[4]] && c[1..][1..] == [c[2], c[3], c[4]];
    assert c[1..][1..][1..] == [c[3], c[4]] && c[1..][1..][1..][1..] == [c[4]] && c[1..][1..][1..][1..][1..] == [];
  }

  /** Leap days of 1892, 1896, 1904, 1908 and 1912: the engine raises, although it is documented never to. */
  lemma LeapDaysRaise()
    ensures Discover(LeapColumn()) == Raised(NoSuchDate)
  {
    hide *;
    var column, instants := LeapColumn(), FiveInstants(690_732 * DAY);
    LeapColumnReads();
    LeapColumnIsDates();
    FiveDecline(690_732 * DAY);
    LeavesItToTheCalendar(column, instants, Ambiguous);
    LeapCalendarRaises(Ambiguous);
  }

  lemma LeapColumnIsDates()
    ensures |LeapColumn()| == 5 && |FiveInstants(690_732 * DAY)| == 5 && 690_732 * DAY <= MAX_INSTANT - 10000 * DAY
    ensures Uniform(LeapColumn()) && OneTimeOfDay(LeapColumn()) && TimeOf(LeapColumn()[0]) == 0
  {
    forall o | o in LeapColumn() ensures o.Day? { }
  }

  /** With distinct instants at one time of day, a declining fixed interval leaves the answer to the calendar. */
  lemma LeavesItToTheCalendar(observed: seq<Observation>, instants: seq<int>, status: Status)
    requires FilterMap(observed, Readable) == observed && |observed| >= 5 && Uniform(observed) && OneTimeOfDay(observed)
    requires FilterMap(observed, InstantOf) == instants && |instants| >= 2 && Increasing(instants)
    requires Fixed(instants, 0) == Declined(status)
    ensures Discover(observed) == Calendars(observed, status)
  {
    IncreasingUnique(SortUnique(instants), instants);
    ExcessZero(instants, instants);
    hide FilterMap, SortUnique, Excess, Fixed, Calendars, Uniform, OneTimeOfDay, Increasing;
  }

  lemma LeapCalendarRaises(status: Status)
    ensures LeapColumn() != [] && Calendars(LeapColumn(), status) == Raised(NoSuchDate)
  {
    hide FilterMap, SortUnique, Excess, TryYears, TryMonths, Codes, Anniversaries, Decode, Without, FiveInstants;
    LeapColumnIsDates();
    LeapColumnReads();
    LeapDates();
    LeapYears();
    YearRecovery(1892, 4, 6, 2, 2, 29);
    assert !IsDate(Date(1900, 2, 29));
    hide IsDate, LeapColumn;
  }

  lemma LeapYears()
    ensures Without(1892, 4, 6, 2) == [1892, 1896, 1904, 1908, 1912]
  {
    assert Terms(1912, 4, 1) == [1912] + Terms(1916, 4, 0);
    assert Terms(1908, 4, 2) == [1908, 1912];
    assert Terms(1904, 4, 3) == [1904, 1908, 1912];
    assert Without(1900, 4, 4, 0) == Terms(1904, 4, 3);
    assert Without(1896, 4, 5, 1) == [1896] + Without(1900, 4, 4, 0);
  }

  lemma LeapDates()
    ensures var dates := Anniversaries([1892, 1896, 1904, 1908, 1912], 2, 29);
      Decode(SortUnique(Codes(dates))) == dates && Excess(SortUnique(Codes(dates)), Codes(dates)) == 0
  {
    var dates := Anniversaries([1892, 1896, 1904, 1908, 1912], 2, 29);
    var codes := Codes(dates);
    hide Codes;
    CodesLength(dates);
    forall i, j | 0 <= i < j < 5 ensures codes[i] < codes[j] {
      CodesAt(dates, i);
      CodesAt(dates, j);
    }
    IncreasingUnique(SortUnique(codes), codes);
    ExcessZero(codes, codes);
    forall d | d in dates ensures IsDate(d) { }
    DecodeCodes(dates);
  }
}
