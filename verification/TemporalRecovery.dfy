/** The date and time engine over whole columns: recovery of deleted values, next values, freshness, and order. */
module TemporalRecovery {
  import opened Collections
  import opened Progression
  import opened Calendar
  import opened TemporalEvidence

  // --- fixed intervals ------------------------------------------------------------------

  /** `range(first, last + 1, step)` is the progression that ends in last. */
  lemma {:induction false} SlotsAreTerms(first: int, step: int, n: nat)
    requires step > 0 && n > 0
    ensures FixedSlots(first, first + (n - 1) * step, step) == Terms(first, step, n)
    decreases n
  {
    StepOver(n - 2, step);
    if n > 1 {
      MulLe(0, n - 2, step);
      SlotsAreTerms(first + step, step, n - 1);
      assert first + step + (n - 2) * step == first + (n - 1) * step;
    } else {
      assert (n - 1) * step == 0;
      assert Range(first, first + 1, step) == [first] + Range(first + step, first + 1, step);
      assert Terms(first, step, 1) == [first] + Terms(first + step, step, 0);
    }
  }

  lemma SlotAfterTerms(first: int, step: int, n: nat)
    requires step > 0 && n > 0
    ensures SlotAfter(first, first + (n - 1) * step, step) == first + n * step
  {
    DivideWithin(n - 1, 0, step);
  }

  /** The deleted instant comes back exactly when the progression's next instant is still a datetime. */
  lemma FixedWithout(first: int, step: int, n: nat, k: nat, duplicates: nat)
    requires step >= 1 && 6 <= n <= MAX_EXPECTED_RANGE_SLOTS && 0 < k < n - 1 && duplicates <= 1
    ensures Increasing(Without(first, step, n, k))
    ensures Fixed(Without(first, step, n, k), duplicates)
         == if first + n * step > MAX_INSTANT then Failed(OutOfRange) else Found(TemporalGap, first + k * step, step)
  {
    hide Without, Diffs, Absent, FixedSlots, SlotAfter, Mode, Count, Fixed, Terms, Increasing;
    var unique := Without(first, step, n, k);
    WithoutIncreases(first, step, n, k);
    WithoutEnds(first, step, n, k);
    ModeOfWithout(first, step, n, k);
    MulLe(n - 1, MAX_EXPECTED_RANGE_SLOTS - 1, step);
    SlotAfterTerms(first, step, n);
    SlotsAreTerms(first, step, n);
    WithoutGap(first, step, n, k);
    OneGapFound(unique, step, first + k * step, duplicates);
  }

  lemma OneGapFound(unique: seq<int>, step: int, gap: int, duplicates: nat)
    requires |unique| >= 2 && duplicates <= 1 && Increasing(unique) && gap !in unique && step > 0
    requires Diffs(unique) != [] && Mode(Diffs(unique)) == step
    requires Count(Diffs(unique), step) >= MIN_SUPPORTING_TRANSITIONS
    requires 2 * Count(Diffs(unique), step) >= |Diffs(unique)|
    requires unique[|unique| - 1] - unique[0] <= (MAX_EXPECTED_RANGE_SLOTS - 1) * step
    requires Absent(FixedSlots(unique[0], unique[|unique| - 1], step), unique) == [gap]
    ensures Fixed(unique, duplicates)
         == if SlotAfter(unique[0], unique[|unique| - 1], step) > MAX_INSTANT then Failed(OutOfRange)
           else Found(TemporalGap, gap, step)
  {
  }

  lemma ModeOfTerms(first: int, step: int, n: nat)
    requires step > 0 && n >= 2
    ensures Increasing(Terms(first, step, n))
    ensures var diffs := Diffs(Terms(first, step, n));
      diffs != [] && Mode(diffs) == step && Count(diffs, step) == |diffs| == n - 1
    ensures Terms(first, step, n)[0] == first && Terms(first, step, n)[n - 1] == first + (n - 1) * step
  {
    hide Terms, Diffs, Mode, Count, Repeat;
    TermsIncrease(first, step, n);
    TermsDiffs(first, step, n);
    RepeatMode(step, n - 1);
    TermAt(first, step, n, 0);
    TermAt(first, step, n, n - 1);
  }

  /** A full progression with one value twice: the next value, exactly when it is still a datetime. */
  lemma FixedNext(first: int, step: int, n: nat)
    requires step >= 1 && 4 <= n <= MAX_EXPECTED_RANGE_SLOTS
    ensures Increasing(Terms(first, step, n))
    ensures Fixed(Terms(first, step, n), 1)
         == if first + n * step > MAX_INSTANT then Failed(OutOfRange)
           else Found(TemporalNextValue, first + n * step, step)
  {
    hide Terms, Diffs, Absent, FixedSlots, SlotAfter, Mode, Count, Fixed, Increasing;
    var unique := Terms(first, step, n);
    ModeOfTerms(first, step, n);
    MulLe(n - 1, MAX_EXPECTED_RANGE_SLOTS - 1, step);
    StepOver(n - 1, step);
    SlotAfterTerms(first, step, n);
    SlotsAreTerms(first, step, n);
    AbsentNone(unique, unique);
    assert first + n * step !in unique by { TermsIncrease(first, step, n); }
    FullRangeFound(unique, step);
  }

  lemma FullRangeFound(unique: seq<int>, step: int)
    requires |unique| >= 2 && Increasing(unique) && step > 0
    requires Diffs(unique) != [] && Mode(Diffs(unique)) == step
    requires Count(Diffs(unique), step) >= MIN_SUPPORTING_TRANSITIONS
    requires 2 * Count(Diffs(unique), step) >= |Diffs(unique)|
    requires unique[|unique| - 1] - unique[0] <= (MAX_EXPECTED_RANGE_SLOTS - 1) * step
    requires Absent(FixedSlots(unique[0], unique[|unique| - 1], step), unique) == []
    requires SlotAfter(unique[0], unique[|unique| - 1], step) == unique[|unique| - 1] + step
    requires unique[|unique| - 1] + step !in unique
    ensures var next := unique[|unique| - 1] + step;
      Fixed(unique, 1) == if next > MAX_INSTANT then Failed(OutOfRange) else Found(TemporalNextValue, next, step)
  {
    hide Diffs, Mode, Count, Absent, FixedSlots, SlotAfter;
  }

  lemma ModeOfWithout(first: int, step: int, n: nat, k: nat)
    requires step >= 1 && n >= 5 && 0 < k < n - 1
    ensures var diffs := Diffs(Without(first, step, n, k));
      diffs != [] && Mode(diffs) == step && Count(diffs, step) == n - 3 && |diffs| == n - 2
  {
    hide Without, Diffs, Mode, Count;
    WithoutMode(first, step, n, k);
  }

  /** Where a fixed-interval candidate lies. */
  ghost predicate FixedIsPlaced(unique: seq<int>, duplicates: nat, strategy: Strategy, value: int, step: int)
    requires unique != []
  {
    var lo, hi := unique[0], unique[|unique| - 1];
    && step > 0 && value !in unique
    && (forall x :: lo <= x <= hi && (x - lo) % step == 0 && x != value ==> x in unique)
    && (strategy == TemporalGap ==> lo < value < hi && (value - lo) % step == 0)
    && (strategy == TemporalNextValue ==> value == hi + step && duplicates == 1)
  }

  /** A gap lies strictly inside the range and is the only slot missing; a next value follows a full range. */
  lemma FixedCandidateIsPlaced(unique: seq<int>, duplicates: nat)
    requires |unique| >= 2 && Increasing(unique) && Fixed(unique, duplicates).Found?
    ensures var r := Fixed(unique, duplicates); FixedIsPlaced(unique, duplicates, r.strategy, r.value, r.step)
  {
    DiffsPositive(unique);
    var lo, hi, step := unique[0], unique[|unique| - 1], Fixed(unique, duplicates).step;
    hide Diffs, Mode, Count, SlotAfter;
    forall x ensures x in FixedSlots(lo, hi, step) <==> lo <= x <= hi && (x - lo) % step == 0 {
      RangeMembers(lo, hi + 1, step, x);
    }
    var gaps := Absent(FixedSlots(lo, hi, step), unique);
    hide FixedSlots, Absent;
    if |gaps| == 1 {
      var x := gaps[0];
      assert x in gaps && gaps == [x];
      assert lo in unique && hi in unique;
    }
  }

  // --- months and years --------------------------------------------------------------------

  lemma PlaceWithout(first: int, step: int, n: nat, k: nat, limit: int)
    requires 1 <= step <= limit && 5 <= n <= limit + 1 && 0 < k < n - 1
    ensures Diffs(Without(first, step, n, k)) != []
    ensures Place(Without(first, step, n, k), 0, limit) == Found(TemporalGap, first + k * step, step)
  {
    hide Without, Diffs, Absent, Mode, Count, Range, Terms;
    WithoutEnds(first, step, n, k);
    ModeOfWithout(first, step, n, k);
    DivideWithin(n - 1, 0, step);
    StepOver(n - 1, step);
    RangeIsTerms(first, step, n);
    WithoutGap(first, step, n, k);
  }

  ghost predicate IsCalendarSlot(lo: int, hi: int, step: int, x: int)
    requires step > 0
  {
    lo <= x < hi + step && (x - lo) % step == 0
  }

  lemma CalendarSlotsMembers(lo: int, hi: int, step: int)
    requires step > 0
    ensures forall x :: x in CalendarSlots(lo, hi, step) <==> IsCalendarSlot(lo, hi, step, x)
  {
    forall x ensures x in CalendarSlots(lo, hi, step) <==> IsCalendarSlot(lo, hi, step, x) {
      RangeMembers(lo, hi + step, step, x);
    }
  }

  /** Where a month or year index lies: in the range, which may overshoot the last one by less than a step. */
  ghost predicate IndexIsPlaced(indexes: seq<int>, duplicates: nat, strategy: Strategy, value: int, step: int)
    requires indexes != []
  {
    var lo, hi := indexes[0], indexes[|indexes| - 1];
    && step > 0
    && (strategy == TemporalGap ==> IsCalendarSlot(lo, hi, step, value) && value !in indexes)
    && (strategy == TemporalNextValue ==> value == hi + step && duplicates == 1)
    && (forall x :: IsCalendarSlot(lo, hi, step, x) && x != value ==> x in indexes)
  }

  /** A calendar gap is the only slot missing, and a next index follows a full range with one duplicate. */
  lemma PlacedIndex(indexes: seq<int>, duplicates: nat, limit: int)
    requires |indexes| >= 2 && Diffs(indexes) != [] && Place(indexes, duplicates, limit).Found?
    ensures var r := Place(indexes, duplicates, limit); IndexIsPlaced(indexes, duplicates, r.strategy, r.value, r.step)
  {
    hide Diffs, Mode, IsCalendarSlot, CalendarSlots, Absent;
    var lo, hi, step := indexes[0], indexes[|indexes| - 1], Place(indexes, duplicates, limit).step;
    CalendarSlotsMembers(lo, hi, step);
    var gaps := Absent(CalendarSlots(lo, hi, step), indexes);
    if |gaps| == 1 {
      var x := gaps[0];
      assert x in gaps && gaps == [x];
    }
  }

  /** A month candidate lies on a placed month and follows the convention of the column, clamped where it must be. */
  lemma MonthCandidateIsPlaced(dates: seq<Date>, duplicates: nat)
    requires TryMonths(dates, duplicates).Found?
    ensures var r := TryMonths(dates, duplicates);
      && |dates| >= 2 && IndexIsPlaced(MonthIndexes(dates), duplicates, r.strategy, MonthIndex(r.value), r.step)
      && (SameDay(dates) || MonthEnds(dates))
      && (if MonthEnds(dates) then IsMonthEnd(r.value)
          else r.value.day == dates[0].day || (r.value.day < dates[0].day && IsMonthEnd(r.value)))
  {
    hide Place, Diffs, MonthEnds, IndexIsPlaced;
    DiffsExist(MonthIndexes(dates));
    var place := Place(MonthIndexes(dates), duplicates, MAX_EXPECTED_MONTHS);
    PlacedIndex(MonthIndexes(dates), duplicates, MAX_EXPECTED_MONTHS);
    assert dates[|dates| - 1] in dates;
    InMonthIndex(place.value, dates[0].day, MonthEnds(dates));
    InMonthIndex(place.value, dates[|dates| - 1].day, MonthEnds(dates));
    hide InMonth, IsMonthEnd, MonthIndexes;
  }

  lemma InMonthIndex(index: int, day: int, endOfMonth: bool)
    requires InMonth(index, day, endOfMonth).Some?
    ensures var d := InMonth(index, day, endOfMonth).value;
      && MonthIndex(d) == index
      && (endOfMonth ==> IsMonthEnd(d)) && (!endOfMonth ==> d.day == day || (d.day < day && IsMonthEnd(d)))
  {
    assert index == (index / 12) * 12 + index % 12;
    hide IsLeap;
  }

  /** A year candidate lies on a placed year and has the column's month and day. */
  lemma YearCandidateIsPlaced(dates: seq<Date>, duplicates: nat)
    requires TryYears(dates, duplicates).Found?
    ensures var r := TryYears(dates, duplicates);
      && |dates| >= 2 && IndexIsPlaced(Years(dates), duplicates, r.strategy, r.value.year, r.step)
      && r.value.month == dates[0].month && r.value.day == dates[0].day
  {
    hide Place, Diffs, IndexIsPlaced, Years;
    DiffsExist(Years(dates));
    PlacedIndex(Years(dates), duplicates, MAX_EXPECTED_YEARS);
  }

  /** A full run of months or years with one date twice: the next index. */
  lemma PlaceNext(first: int, step: int, n: nat, limit: int)
    requires 1 <= step <= limit && 3 <= n <= limit + 1
    ensures Diffs(Terms(first, step, n)) != []
    ensures Place(Terms(first, step, n), 1, limit) == Found(TemporalNextValue, first + n * step, step)
  {
    hide Terms, Diffs, Absent, Mode, Count, Range;
    ModeOfTerms(first, step, n);
    DivideWithin(n - 1, 0, step);
    StepOver(n - 1, step);
    RangeIsTerms(first, step, n);
    AbsentNone(Terms(first, step, n), Terms(first, step, n));
  }

  /** A month index the calendar has, with a day its month has. */
  ghost predicate Fits(index: int, day: int, endOfMonth: bool) {
    12 <= index < 12 * (MAX_YEAR + 1) && (endOfMonth || 1 <= day <= LastDay(index / 12, index % 12 + 1))
  }

  function DateAt(index: int, day: int, endOfMonth: bool): (d: Date)
    requires Fits(index, day, endOfMonth)
    ensures IsDate(d) && MonthIndex(d) == index && (if endOfMonth then IsMonthEnd(d) else d.day == day)
    ensures InMonth(index, day, endOfMonth) == Some(d)
  {
    Date(index / 12, index % 12 + 1, if endOfMonth then LastDay(index / 12, index % 12 + 1) else day)
  }

  /** The dates of these months, on one day or at each month's end. */
  function DatesAt(indexes: seq<int>, day: int, endOfMonth: bool): (dates: seq<Date>)
    requires forall m :: m in indexes ==> Fits(m, day, endOfMonth)
    ensures |dates| == |indexes|
    ensures forall i :: 0 <= i < |dates| ==> dates[i] == DateAt(indexes[i], day, endOfMonth)
  {
    if indexes == [] then []
    else
      var m := indexes[0];
      assert m in indexes;
      [DateAt(m, day, endOfMonth)] + DatesAt(indexes[1..], day, endOfMonth)
  }

  function DateCode(d: Date): Option<int> { Some(Code(d)) }

  function Codes(dates: seq<Date>): seq<int> { FilterMap(dates, DateCode) }

  /** `sorted({...})` and the number of repeats of a list of dates. */
  function SortedDates(dates: seq<Date>): seq<Date> { Decode(SortUnique(Codes(dates))) }

  function Repeats(dates: seq<Date>): nat { Excess(SortUnique(Codes(dates)), Codes(dates)) }

  lemma {:induction false} CodesAt(dates: seq<Date>, i: nat)
    requires i < |dates|
    ensures |Codes(dates)| == |dates| && Codes(dates)[i] == Code(dates[i])
  {
    if i > 0 { CodesAt(dates[1..], i - 1); } else { CodesLength(dates); }
  }

  lemma {:induction false} CodesLength(dates: seq<Date>)
    ensures |Codes(dates)| == |dates|
  {
    if dates != [] { CodesLength(dates[1..]); }
  }

  lemma {:induction false} DecodeCodes(dates: seq<Date>)
    requires forall d :: d in dates ==> IsDate(d)
    ensures Decode(Codes(dates)) == dates
  {
    if dates != [] {
      assert dates[0] in dates;
      CodeRoundTrip(dates[0]);
      DecodeCodes(dates[1..]);
    }
  }

  lemma CodesIncrease(indexes: seq<int>, day: int, endOfMonth: bool)
    requires Increasing(indexes) && forall m :: m in indexes ==> Fits(m, day, endOfMonth)
    ensures Increasing(Codes(DatesAt(indexes, day, endOfMonth)))
  {
    var dates := DatesAt(indexes, day, endOfMonth);
    var codes := Codes(dates);
    CodesLength(dates);
    hide Codes, DatesAt;
    forall i, j | 0 <= i < j < |codes| ensures codes[i] < codes[j] {
      CodesAt(dates, i);
      CodesAt(dates, j);
      LaterMonth(dates[i], dates[j]);
    }
  }

  lemma LaterMonth(d: CalendarDate, e: CalendarDate)
    requires MonthIndex(d) < MonthIndex(e)
    ensures Code(d) < Code(e)
  {
    hide LastDay;
    assert d.day <= 31;
  }

  /** Any arrangement of such dates sorts back to them, without repeats. */
  lemma SortRestores(indexes: seq<int>, day: int, endOfMonth: bool, dates: seq<Date>)
    requires Increasing(indexes) && forall m :: m in indexes ==> Fits(m, day, endOfMonth)
    requires multiset(dates) == multiset(DatesAt(indexes, day, endOfMonth))
    ensures SortedDates(dates) == DatesAt(indexes, day, endOfMonth) && Repeats(dates) == 0
  {
    var inOrder := DatesAt(indexes, day, endOfMonth);
    CodesIncrease(indexes, day, endOfMonth);
    FilterMapPermutation(dates, inOrder, DateCode);
    SortUniquePermutation(Codes(dates), Codes(inOrder));
    IncreasingUnique(SortUnique(Codes(inOrder)), Codes(inOrder));
    ExcessPermutation(Codes(inOrder), Codes(dates), Codes(inOrder));
    ExcessZero(Codes(inOrder), Codes(inOrder));
    DecodeCodes(inOrder);
  }

  lemma {:induction false} IndexesOfDates(indexes: seq<int>, day: int, endOfMonth: bool)
    requires forall m :: m in indexes ==> Fits(m, day, endOfMonth)
    ensures MonthIndexes(DatesAt(indexes, day, endOfMonth)) == indexes
  {
    if indexes != [] {
      var m := indexes[0];
      assert m in indexes;
      IndexesOfDates(indexes[1..], day, endOfMonth);
    }
  }

  /**
    Month recovery, for any arrangement of the dates: a deleted month-end always comes back, and a deleted
    same-day date comes back unless the rest are all month-ends and it is not.
  */
  lemma MonthRecovery(first: int, step: int, n: nat, k: nat, day: int, endOfMonth: bool, dates: seq<Date>)
    requires 1 <= step <= MAX_EXPECTED_MONTHS && 5 <= n <= MAX_EXPECTED_MONTHS + 1 && 0 < k < n - 1
    requires (forall m :: m in Without(first, step, n, k) ==> Fits(m, day, endOfMonth))
          && Fits(first + k * step, day, endOfMonth)
    requires multiset(dates) == multiset(DatesAt(Without(first, step, n, k), day, endOfMonth))
    ensures var gone := DateAt(first + k * step, day, endOfMonth);
      TryMonths(SortedDates(dates), Repeats(dates)) == Found(TemporalGap, gone, step) <==>
        endOfMonth || !MonthEnds(dates) || IsMonthEnd(gone)
  {
    hide *;
    var indexes, gone := Without(first, step, n, k), DateAt(first + k * step, day, endOfMonth);
    var inOrder := DatesAt(indexes, day, endOfMonth);
    WithoutIncreases(first, step, n, k);
    SortRestores(indexes, day, endOfMonth, dates);
    AllFollow(indexes, day, endOfMonth, MonthIndex(gone));
    GoneFollows(first + k * step, day, endOfMonth);
    SameMembers(dates, inOrder);
    IndexesOfDates(indexes, day, endOfMonth);
    PlaceWithout(first, step, n, k, MAX_EXPECTED_MONTHS);
    SameMonthEnds(dates, inOrder);
    MonthsChoose(inOrder, gone, day, endOfMonth, step);
  }

  lemma SameMonthEnds(xs: seq<Date>, ys: seq<Date>)
    requires forall d :: d in xs <==> d in ys
    ensures MonthEnds(xs) <==> MonthEnds(ys)
  {
  }

  /** The convention holds of a date, which is not in this month. */
  ghost predicate Follows(d: Date, day: int, endOfMonth: bool) {
    IsDate(d) && if endOfMonth then IsMonthEnd(d) else d.day == day
  }

  ghost predicate AllFollowExcept(dates: seq<Date>, day: int, endOfMonth: bool, index: int) {
    forall d :: d in dates ==> Follows(d, day, endOfMonth) && MonthIndex(d) != index
  }

  lemma GoneFollows(index: int, day: int, endOfMonth: bool)
    requires Fits(index, day, endOfMonth)
    ensures Follows(DateAt(index, day, endOfMonth), day, endOfMonth)
  {
  }

  lemma AllFollow(indexes: seq<int>, day: int, endOfMonth: bool, index: int)
    requires (forall m :: m in indexes ==> Fits(m, day, endOfMonth)) && index !in indexes
    ensures AllFollowExcept(DatesAt(indexes, day, endOfMonth), day, endOfMonth, index)
  {
    hide LastDay;
    var dates := DatesAt(indexes, day, endOfMonth);
    forall d | d in dates ensures Follows(d, day, endOfMonth) && MonthIndex(d) != index {
      var i :| 0 <= i < |dates| && dates[i] == d;
      assert indexes[i] in indexes;
    }
  }

  lemma MonthsChoose(dates: seq<Date>, gone: Date, day: int, endOfMonth: bool, step: int)
    requires |dates| >= 2 && Diffs(MonthIndexes(dates)) != []
    requires Place(MonthIndexes(dates), 0, MAX_EXPECTED_MONTHS) == Found(TemporalGap, MonthIndex(gone), step)
    requires AllFollowExcept(dates, day, endOfMonth, MonthIndex(gone)) && Follows(gone, day, endOfMonth)
    ensures TryMonths(dates, 0) == Found(TemporalGap, gone, step) <==>
      endOfMonth || !MonthEnds(dates) || IsMonthEnd(gone)
  {
    assert dates[0] in dates;
    var conventional := InMonth(MonthIndex(gone), dates[0].day, MonthEnds(dates));
    Conventional(gone, dates[0].day, endOfMonth, MonthEnds(dates));
    assert SameDay(dates) || MonthEnds(dates);
    assert conventional.value !in dates;
    hide *;
    assert conventional.Some? && conventional.value !in dates;
    MonthsResult(dates, MonthIndex(gone), step);
  }

  lemma MonthsResult(dates: seq<Date>, index: int, step: int)
    requires |dates| >= 2 && Diffs(MonthIndexes(dates)) != [] && (SameDay(dates) || MonthEnds(dates))
    requires Place(MonthIndexes(dates), 0, MAX_EXPECTED_MONTHS) == Found(TemporalGap, index, step)
    requires var date := InMonth(index, dates[0].day, MonthEnds(dates)); date.Some? && date.value !in dates
    ensures TryMonths(dates, 0) == Found(TemporalGap, InMonth(index, dates[0].day, MonthEnds(dates)).value, step)
  {
  }

  /** The date the convention puts in the month of `gone`. */
  lemma Conventional(gone: Date, day: int, endOfMonth: bool, ends: bool)
    requires Follows(gone, day, endOfMonth) && (endOfMonth ==> ends)
    ensures var date := InMonth(MonthIndex(gone), day, ends);
      date.Some? && MonthIndex(date.value) == MonthIndex(gone) && (date.value == gone <==> !ends || IsMonthEnd(gone))
  {
    SplitIndex(gone.year, gone.month);
    hide IsLeap;
  }

  /** The last days of February of 2021, 2022, 2023, 2025 and 2026, each the 28th. */
  function FebruaryColumn(): seq<Date> {
    [Date(2021, 2, 28), Date(2022, 2, 28), Date(2023, 2, 28), Date(2025, 2, 28), Date(2026, 2, 28)]
  }

  /**
    The exception is real: February 28 deleted from 2024 comes back as February 29, since the others are month-ends.
  */
  lemma MonthEndsWin()
    ensures TryMonths(FebruaryColumn(), 0) == Found(TemporalGap, Date(2024, 2, 29), 12)
  {
    hide Place, Without, Diffs, MonthIndexes, MonthEnds, FebruaryColumn;
    FebruaryIndexes();
    PlaceWithout(24_253, 12, 6, 3, MAX_EXPECTED_MONTHS);
    FebruaryEnds();
    assert InMonth(24_289, 28, true) == Some(Date(2024, 2, 29));
    hide InMonth;
    MonthsResult(FebruaryColumn(), 24_289, 12);
  }

  lemma FebruaryEnds()
    ensures |FebruaryColumn()| == 5 && FebruaryColumn()[0].day == 28
    ensures MonthEnds(FebruaryColumn()) && Date(2024, 2, 29) !in FebruaryColumn()
  {
  }

  lemma FebruaryIndexes()
    ensures MonthIndexes(FebruaryColumn()) == Without(24_253, 12, 6, 3)
  {
    var dates := FebruaryColumn();
    var t, u, v, w := dates[1..], dates[2..], dates[3..], dates[4..];
    assert t[1..] == u && u[1..] == v && v[1..] == w && w[1..] == [];
    assert MonthIndexes(w) == [24_313] && MonthIndexes(v) == [24_301, 24_313];
    assert MonthIndexes(u) == [24_277] + MonthIndexes(v) && MonthIndexes(t) == [24_265] + MonthIndexes(u);
    assert Terms(24_313, 12, 1) == [24_313] + Terms(24_325, 12, 0);
    assert Terms(24_301, 12, 2) == [24_301] + Terms(24_313, 12, 1);
    assert Without(24_289, 12, 3, 0) == Terms(24_301, 12, 2);
    assert Without(24_277, 12, 4, 1) == [24_277] + Without(24_289, 12, 3, 0);
    assert Without(24_265, 12, 5, 2) == [24_265] + Without(24_277, 12, 4, 1);
  }

  /** Days up to 27 are never month-ends, so same-day recovery holds without exception. */
  lemma SameDayRecovery(first: int, step: int, n: nat, k: nat, day: int, dates: seq<Date>)
    requires 1 <= step <= MAX_EXPECTED_MONTHS && 5 <= n <= MAX_EXPECTED_MONTHS + 1 && 0 < k < n - 1
    requires 1 <= day <= 27
    requires (forall m :: m in Without(first, step, n, k) ==> Fits(m, day, false)) && Fits(first + k * step, day, false)
    requires multiset(dates) == multiset(DatesAt(Without(first, step, n, k), day, false))
    ensures TryMonths(SortedDates(dates), Repeats(dates))
      == Found(TemporalGap, DateAt(first + k * step, day, false), step)
  {
    MonthRecovery(first, step, n, k, day, false, dates);
    var inOrder := DatesAt(Without(first, step, n, k), day, false);
    SameMembers(dates, inOrder);
    assert inOrder[0] in dates && inOrder[0].day == day;
    assert !IsMonthEnd(inOrder[0]);
  }

  /** A list of dates on one month and day, in order of year. */
  function Anniversaries(years: seq<int>, month: int, day: int): (dates: seq<Date>)
    ensures |dates| == |years|
    ensures forall i :: 0 <= i < |dates| ==> dates[i] == Date(years[i], month, day)
  {
    if years == [] then [] else [Date(years[0], month, day)] + Anniversaries(years[1..], month, day)
  }

  lemma {:induction false} YearsOfAnniversaries(years: seq<int>, month: int, day: int)
    ensures Years(Anniversaries(years, month, day)) == years
  {
    if years != [] { YearsOfAnniversaries(years[1..], month, day); }
  }

  /** The year strategy gives the deleted anniversary back when that date exists, and raises when it does not. */
  lemma YearRecovery(first: int, step: int, n: nat, k: nat, month: int, day: int)
    requires 1 <= step <= MAX_EXPECTED_YEARS && 5 <= n <= MAX_EXPECTED_YEARS + 1 && 0 < k < n - 1
    ensures var gone := Date(first + k * step, month, day);
      TryYears(Anniversaries(Without(first, step, n, k), month, day), 0)
        == if IsDate(gone) then Found(TemporalGap, gone, step) else Failed(NoSuchDate)
  {
    hide *;
    var years := Without(first, step, n, k);
    var dates, gone := Anniversaries(years, month, day), Date(first + k * step, month, day);
    WithoutIncreases(first, step, n, k);
    YearsOfAnniversaries(years, month, day);
    PlaceWithout(first, step, n, k, MAX_EXPECTED_YEARS);
    forall i | 0 <= i < |dates| ensures dates[i] != gone {
      assert years[i] in years;
    }
    YearsResult(dates, first + k * step, month, day, step);
  }

  lemma YearsResult(dates: seq<Date>, year: int, month: int, day: int, step: int)
    requires |dates| >= 2 && Diffs(Years(dates)) != [] && Date(year, month, day) !in dates
    requires forall i :: 0 <= i < |dates| ==> dates[i].month == month && dates[i].day == day
    requires Place(Years(dates), 0, MAX_EXPECTED_YEARS) == Found(TemporalGap, year, step)
    ensures TryYears(dates, 0)
         == if IsDate(Date(year, month, day)) then Found(TemporalGap, Date(year, month, day), step)
           else Failed(NoSuchDate)
  {
    hide IsDate, Place, Diffs, Years;
  }

  // --- whole columns ------------------------------------------------------------------------------

  lemma {:induction false} ReadableLength(observed: seq<Observation>)
    requires forall o :: o in observed ==> !o.Unreadable?
    ensures |FilterMap(observed, InstantOf)| == |observed|
  {
    if observed != [] {
      assert observed[0] in observed;
      ReadableLength(observed[1..]);
    }
  }

  lemma ParsedIsReadable(observed: seq<Observation>)
    ensures forall o :: o in FilterMap(observed, Readable) ==> !o.Unreadable?
  {
    forall o | o in FilterMap(observed, Readable) ensures !o.Unreadable? {
      FilterMapMember(observed, Readable, o);
    }
  }

  /** What a column's readable values stand for. */
  function Instants(observed: seq<Observation>): seq<int> {
    FilterMap(FilterMap(observed, Readable), InstantOf)
  }

  /**
    Deletion recovery for any column, in any order and with at most one value twice: the deleted instant comes back,
    unless datetime ends one step later.
  */
  lemma FixedRecovery(first: int, step: int, n: nat, k: nat, twice: Option<int>, observed: seq<Observation>)
    requires step >= 1 && 6 <= n <= MAX_EXPECTED_RANGE_SLOTS && 0 < k < n - 1
    requires Uniform(FilterMap(observed, Readable))
    requires twice.Some? ==> twice.value in Without(first, step, n, k)
    requires multiset(Instants(observed))
      == multiset(Without(first, step, n, k) + if twice.Some? then [twice.value] else [])
    ensures var r := Discover(observed);
      if first + n * step > MAX_INSTANT then r == Raised(OutOfRange) else Answers(r, TemporalGap, first + k * step)
  {
    hide FilterMap, Fixed, Without, SortUnique, Excess, Increasing, Uniform;
    var unique := Without(first, step, n, k);
    FixedWithout(first, step, n, k, if twice.Some? then 1 else 0);
    AtMostOneRepeat(unique, twice, Instants(observed));
    hide Discover;
    FixedAnswers(observed, unique, if twice.Some? then 1 else 0);
  }

  /** A full progression with one value twice, in any order: the next value, unless datetime ends before it. */
  lemma FixedNextValue(first: int, step: int, n: nat, twice: int, observed: seq<Observation>)
    requires step >= 1 && 4 <= n <= MAX_EXPECTED_RANGE_SLOTS && twice in Terms(first, step, n)
    requires Uniform(FilterMap(observed, Readable))
    requires multiset(Instants(observed)) == multiset(Terms(first, step, n) + [twice])
    ensures var r := Discover(observed);
      if first + n * step > MAX_INSTANT then r == Raised(OutOfRange)
      else Answers(r, TemporalNextValue, first + n * step)
  {
    hide FilterMap, Fixed, Terms, SortUnique, Excess, Increasing, Uniform;
    var unique := Terms(first, step, n);
    FixedNext(first, step, n);
    AtMostOneRepeat(unique, Some(twice), Instants(observed));
    hide Discover;
    FixedAnswers(observed, unique, 1);
  }

  lemma AtMostOneRepeat(s: seq<int>, twice: Option<int>, xs: seq<int>)
    requires Increasing(s) && (twice.Some? ==> twice.value in s)
    requires multiset(xs) == multiset(s + if twice.Some? then [twice.value] else [])
    ensures |xs| >= |s| && SortUnique(xs) == s && (forall y :: y in s ==> y in xs)
    ensures twice.Some? ==> |xs| == |s| + 1
    ensures Excess(s, xs) == if twice.Some? then 1 else 0
  {
    if twice.Some? {
      OneRepeat(s, twice.value, xs);
    } else {
      assert s + [] == s;
      SameMembers(xs, s);
      SortUniquePermutation(xs, s);
      IncreasingUnique(SortUnique(s), s);
      ExcessPermutation(s, xs, s);
      ExcessZero(s, s);
    }
  }

  /** The engine answers with this strategy and instant. */
  ghost predicate Answers(r: Result, strategy: Strategy, instant: int) {
    && r.Result? && r.status == Candidate && r.best.Some?
    && r.best.value.strategy == strategy && r.best.value.instant == instant
  }

  lemma FixedAnswers(observed: seq<Observation>, unique: seq<int>, duplicates: nat)
    requires Uniform(FilterMap(observed, Readable)) && |Instants(observed)| >= 5
    requires SortUnique(Instants(observed)) == unique && |unique| >= 2 && Increasing(unique)
    requires (forall x :: x in unique ==> x in Instants(observed)) && Excess(unique, Instants(observed)) == duplicates
    requires !Fixed(unique, duplicates).Declined?
    ensures var r, f := Discover(observed), Fixed(unique, duplicates);
      if f.Failed? then r == Raised(f.error) else Answers(r, f.strategy, f.value)
  {
    ParsedIsReadable(observed);
    ReadableLength(FilterMap(observed, Readable));
    hide FilterMap, SortUnique, Excess, Fixed, Uniform, Increasing;
  }

  lemma UniformPermutation(xs: seq<Observation>, ys: seq<Observation>)
    requires multiset(xs) == multiset(ys)
    ensures Uniform(xs) <==> Uniform(ys)
    ensures OneTimeOfDay(xs) <==> OneTimeOfDay(ys)
    ensures xs != [] && OneTimeOfDay(xs) ==> ys != [] && TimeOf(xs[0]) == TimeOf(ys[0])
  {
    SameMembers(xs, ys);
    if xs != [] {
      assert xs[0] in ys && ys[0] in xs;
    }
  }

  /** The whole result, raised errors included, is a function of the multiset of observations. */
  lemma OrderIndependence(xs: seq<Observation>, ys: seq<Observation>)
    requires multiset(xs) == multiset(ys)
    ensures Discover(xs) == Discover(ys)
  {
    hide FilterMap, SortUnique, Excess, Fixed, Uniform, OneTimeOfDay, Calendars, Increasing, FixedEvidence;
    FilterMapPermutation(xs, ys, Readable);
    var a, b := FilterMap(xs, Readable), FilterMap(ys, Readable);
    UniformPermutation(a, b);
    SameMembers(a, b);
    FilterMapPermutation(a, b, InstantOf);
    var p, q := FilterMap(a, InstantOf), FilterMap(b, InstantOf);
    SortUniquePermutation(p, q);
    SameMembers(p, q);
    ExcessPermutation(SortUnique(p), p, q);
    if a != [] && OneTimeOfDay(a) {
      forall status { CalendarsPermutation(a, b, status); }
    }
  }

  lemma CalendarsPermutation(a: seq<Observation>, b: seq<Observation>, status: Status)
    requires multiset(a) == multiset(b) && a != [] && b != [] && OneTimeOfDay(a)
    ensures Calendars(a, status) == Calendars(b, status)
  {
    hide FilterMap, SortUnique, Excess, TryYears, TryMonths, OneTimeOfDay, Decode, CalendarEvidence;
    UniformPermutation(a, b);
    FilterMapPermutation(a, b, CodeOf);
    var p, q := FilterMap(a, CodeOf), FilterMap(b, CodeOf);
    SortUniquePermutation(p, q);
    SameMembers(p, q);
    SameMembers(a, b);
    ExcessPermutation(SortUnique(p), p, q);
  }

  // --- freshness ------------------------------------------------------------------------------------

  lemma {:induction false} DecodeMembers(codes: seq<int>, code: int)
    requires code in codes
    ensures FromCode(code) in Decode(codes)
  {
    if codes[0] != code {
      assert codes == [codes[0]] + codes[1..];
      DecodeMembers(codes[1..], code);
    }
  }

  /** A date that is not among the decoded dates gives an instant that no observation has. */
  lemma NewDateIsNewInstant(parsed: seq<Observation>, date: Date)
    requires parsed != [] && OneTimeOfDay(parsed) && IsDate(date)
    requires forall o :: o in parsed ==> !o.Unreadable?
    requires date !in Decode(SortUnique(FilterMap(parsed, CodeOf)))
    ensures Instant(date, TimeOf(parsed[0])) !in FilterMap(parsed, InstantOf)
  {
    hide Ordinal, IsDate, FilterMap, Decode, SortUnique;
    var time := TimeOf(parsed[0]);
    FilterMapMember(parsed, InstantOf, Instant(date, time));
    forall o | o in parsed ensures InstantOf(o) != Some(Instant(date, time)) {
      if Instant(o.date, TimeOf(o)) == Instant(date, time) {
        assert TimeOf(o) == time;
        OrdinalIsInjective(o.date, date);
        CodeRoundTrip(o.date);
        FilterMapMember(parsed, CodeOf, Code(date));
        assert CodeOf(o) == Some(Code(date));
        DecodeMembers(SortUnique(FilterMap(parsed, CodeOf)), Code(date));
      }
    }
  }

  lemma CalendarCandidateIsFresh(parsed: seq<Observation>, status: Status)
    requires parsed != [] && OneTimeOfDay(parsed) && status != Candidate
    requires forall o :: o in parsed ==> !o.Unreadable?
    ensures var r := Calendars(parsed, status);
      r.Result? && r.status == Candidate ==>
        r.best.Some? && 0 <= r.best.value.instant <= MAX_INSTANT
        && r.best.value.instant !in FilterMap(parsed, InstantOf)
  {
    var codes := FilterMap(parsed, CodeOf);
    var unique := SortUnique(codes);
    var dates, duplicates := Decode(unique), Excess(unique, codes);
    FoundDatesAreNew(dates, duplicates);
    FoundDatesAreDates(dates, duplicates);
    var years, months := TryYears(dates, duplicates), TryMonths(dates, duplicates);
    hide Decode, SortUnique, Excess, FilterMap, TryYears, TryMonths, OneTimeOfDay, IsDate, Instant;
    if years.Found? {
      NewDateIsNewInstant(parsed, years.value);
      InstantFits(years.value, TimeOf(parsed[0]));
    } else if months.Found? {
      NewDateIsNewInstant(parsed, months.value);
      InstantFits(months.value, TimeOf(parsed[0]));
    }
  }

  lemma FoundDatesAreNew(dates: seq<Date>, duplicates: nat)
    ensures TryYears(dates, duplicates).Found? ==> TryYears(dates, duplicates).value !in dates
    ensures TryMonths(dates, duplicates).Found? ==> TryMonths(dates, duplicates).value !in dates
  {
    hide Place, SameDay, MonthEnds, SameMonthDay, IsDate, MakeDate, InMonth;
  }

  lemma FixedCandidateFits(unique: seq<int>, duplicates: nat)
    requires |unique| >= 2 && Increasing(unique) && Fixed(unique, duplicates).Found?
    requires unique[0] >= 0 && unique[|unique| - 1] <= MAX_INSTANT
    ensures 0 <= Fixed(unique, duplicates).value <= MAX_INSTANT && Fixed(unique, duplicates).value !in unique
  {
    FixedCandidateIsPlaced(unique, duplicates);
    hide Absent, Diffs, Mode, Count, FixedSlots, SlotAfter;
    assert unique[0] < unique[|unique| - 1];
  }

  lemma InstantsFit(parsed: seq<Observation>)
    ensures forall x :: x in FilterMap(parsed, InstantOf) ==> 0 <= x <= MAX_INSTANT
  {
    forall x | x in FilterMap(parsed, InstantOf) ensures 0 <= x <= MAX_INSTANT {
      FilterMapMember(parsed, InstantOf, x);
      var o :| o in parsed && InstantOf(o) == Some(x);
      InstantFits(o.date, TimeOf(o));
    }
  }

  /** Whatever strategy answers, the candidate is a datetime that was not observed. */
  lemma CandidateIsFresh(observed: seq<Observation>)
    requires Discover(observed).Result? && Discover(observed).status == Candidate
    ensures var r := Discover(observed);
      r.best.Some? && 0 <= r.best.value.instant <= MAX_INSTANT && r.best.value.instant !in Instants(observed)
  {
    var parsed, instants := FilterMap(observed, Readable), Instants(observed);
    var unique := SortUnique(instants);
    ParsedIsReadable(observed);
    InstantsFit(parsed);
    assert |unique| >= 2;
    var lo, hi := unique[0], unique[|unique| - 1];
    assert lo in unique && hi in unique;
    var duplicates := Excess(unique, instants);
    hide FilterMap, SortUnique, Excess, Fixed, Uniform, OneTimeOfDay, Calendars, Increasing, Readable, InstantOf;
    if Fixed(unique, duplicates).Found? {
      FixedCandidateFits(unique, duplicates);
    } else if OneTimeOfDay(parsed) {
      FixedNeverDeclinesAsCandidate(unique, duplicates);
      CalendarCandidateIsFresh(parsed, Fixed(unique, duplicates).status);
    } else {
      FixedNeverDeclinesAsCandidate(unique, duplicates);
    }
  }

  lemma FixedNeverDeclinesAsCandidate(unique: seq<int>, duplicates: nat)
    requires |unique| >= 2 && Increasing(unique)
    ensures Fixed(unique, duplicates).Declined? ==> Fixed(unique, duplicates).status != Candidate
  {
    hide Absent, Diffs, Mode, Count, FixedSlots, SlotAfter;
  }
}
