/** The date and time engine: a fixed interval is tried first, then whole years, then whole months. */
module TemporalEvidence {
  import opened Collections
  import opened Progression
  import opened Calendar

  const MIN_OBSERVATIONS := 5
  const MIN_SUPPORTING_TRANSITIONS := 3
  const MAX_EXPECTED_RANGE_SLOTS := 10_000
  const MAX_EXPECTED_MONTHS := 2_000
  const MAX_EXPECTED_YEARS := 2_000

  type TimeOfDay = t: int | 0 <= t < DAY witness 0

  /** What one raw value parses to; an offset makes a timestamp aware. */
  datatype Observation =
    | Unreadable
    | Day(date: CalendarDate)
    | Stamp(date: CalendarDate, time: TimeOfDay, offset: Option<int>)

  datatype Strategy = TemporalGap | TemporalNextValue
  datatype Kind = FixedInterval | CalendarMonths | CalendarYears
  datatype TemporalError = OutOfRange | NoSuchDate

  datatype Evidence = Evidence(strategy: Strategy, kind: Kind, instant: int, step: int, observedCount: nat,
                               duplicateCount: nat, gapCount: nat, supporting: nat, contradicting: nat,
                               consistency: real, confidence: real)

  datatype Result = Result(status: Status, observedCount: nat, best: Option<Evidence>) | Raised(error: TemporalError)

  /** What one strategy concludes. */
  datatype Outcome<T> =
    | Declined(status: Status)
    | Failed(error: TemporalError)
    | Found(strategy: Strategy, value: T, step: int)

  // --- fixed intervals -------------------------------------------------------------------

  /** The slots from the first value by whole steps, none beyond the last value. */
  function FixedSlots(lo: int, hi: int, step: int): seq<int>
    requires step > 0
  {
    Range(lo, hi + 1, step)
  }

  /** The first slot after the last value, which the loop computes before it stops. */
  function SlotAfter(lo: int, hi: int, step: int): int
    requires step > 0
  {
    lo + ((hi - lo) / step + 1) * step
  }

  function Fixed(unique: seq<int>, duplicates: nat): (r: Outcome<int>)
    requires |unique| >= 2 && Increasing(unique)
  {
    DiffsPositive(unique);
    var diffs := Diffs(unique);
    var step := Mode(diffs);
    var lo, hi := unique[0], unique[|unique| - 1];
    if 2 * Count(diffs, step) < |diffs| then Declined(NoRelationship)
    else if hi - lo > (MAX_EXPECTED_RANGE_SLOTS - 1) * step then Declined(NoRelationship)
    else if SlotAfter(lo, hi, step) > MAX_INSTANT then Failed(OutOfRange)
    else
      var gaps := Absent(FixedSlots(lo, hi, step), unique);
      if gaps == [] && duplicates == 0 then Declined(NoRelationship)
      else if |gaps| > 1 then Declined(Ambiguous)
      else if duplicates > 1 then Declined(Ambiguous)
      else if Count(diffs, step) < MIN_SUPPORTING_TRANSITIONS then Declined(Ambiguous)
      else if |gaps| == 1 then (if gaps[0] in unique then Declined(Ambiguous) else Found(TemporalGap, gaps[0], step))
      else if hi + step > MAX_INSTANT then Failed(OutOfRange)
      else if hi + step in unique then Declined(Ambiguous)
      else Found(TemporalNextValue, hi + step, step)
  }

  /** The slot loop: one slot at a time, and an error when the next one is no datetime. */
  method FillSlots(lo: int, hi: int, step: int) returns (slots: Option<seq<int>>)
    requires step > 0 && lo <= hi <= MAX_INSTANT
    ensures slots == if SlotAfter(lo, hi, step) > MAX_INSTANT then None else Some(FixedSlots(lo, hi, step))
  {
    var found, cur := [], lo;
    ghost var i := 0;
    hide SlotAfter;
    while cur <= hi
      invariant 0 <= i && cur == lo + i * step && lo <= cur <= MAX_INSTANT
      invariant found + FixedSlots(cur, hi, step) == FixedSlots(lo, hi, step)
      invariant cur > hi ==> SlotAfter(lo, hi, step) == cur
      decreases hi - cur
    {
      found := found + [cur];
      StepOver(i, step);
      if cur + step > hi { LoopEnd(lo, hi, step, i); }
      if cur + step > MAX_INSTANT { return None; }
      cur, i := cur + step, i + 1;
    }
    assert found + [] == found;
    slots := Some(found);
  }

  /** `_try_fixed_interval` */
  method TryFixedInterval(unique: seq<int>, duplicates: nat) returns (r: Outcome<int>)
    requires |unique| >= 2 && Increasing(unique) && unique[|unique| - 1] <= MAX_INSTANT
    ensures r == Fixed(unique, duplicates)
  {
    DiffsPositive(unique);
    var diffs := Diffs(unique);
    hide Diffs, Mode, Count, Absent, FixedSlots, SlotAfter;
    var step := Mode(diffs);
    var supporting := Count(diffs, step);
    if 2 * supporting < |diffs| { return Declined(NoRelationship); }
    var lo, hi := unique[0], unique[|unique| - 1];
    if hi - lo > (MAX_EXPECTED_RANGE_SLOTS - 1) * step { return Declined(NoRelationship); }
    var slots := FillSlots(lo, hi, step);
    if slots.None? { return Failed(OutOfRange); }
    var gaps := Absent(slots.value, unique);
    if |gaps| == 0 && duplicates == 0 { return Declined(NoRelationship); }
    if |gaps| > 1 || duplicates > 1 || supporting < MIN_SUPPORTING_TRANSITIONS { return Declined(Ambiguous); }
    if |gaps| == 0 && hi + step > MAX_INSTANT { return Failed(OutOfRange); }
    var candidate := if |gaps| == 1 then gaps[0] else hi + step;
    if candidate in unique { return Declined(Ambiguous); }
    r := Found(if |gaps| == 1 then TemporalGap else TemporalNextValue, candidate, step);
  }

  /** The step that leaves the range leads to the slot after it. */
  lemma LoopEnd(lo: int, hi: int, step: int, i: int)
    requires step > 0 && lo + i * step <= hi < lo + i * step + step
    ensures SlotAfter(lo, hi, step) == lo + i * step + step
  {
    DivideWithin(i, hi - lo - i * step, step);
    StepOver(i, step);
  }

  // --- calendar indexes ---------------------------------------------------------------------

  /** `range(first, last + step, step)`, which may overshoot the last index by less than a step. */
  function CalendarSlots(lo: int, hi: int, step: int): seq<int>
    requires step > 0
  {
    Range(lo, hi + step, step)
  }

  /** The gap or the next index of a run of months or years, neither step nor span beyond a limit. */
  function Place(indexes: seq<int>, duplicates: nat, limit: int): Outcome<int>
    requires |indexes| >= 2 && Diffs(indexes) != []
  {
    var step := Mode(Diffs(indexes));
    var lo, hi := indexes[0], indexes[|indexes| - 1];
    if step <= 0 then Declined(NoRelationship)
    else if step > limit then Declined(NoRelationship)
    else if (hi - lo) / step > limit then Declined(NoRelationship)
    else
      var gaps := Absent(CalendarSlots(lo, hi, step), indexes);
      if |indexes| < MIN_SUPPORTING_TRANSITIONS then Declined(Ambiguous)
      else if gaps == [] && duplicates == 0 then Declined(NoRelationship)
      else if |gaps| > 1 then Declined(Ambiguous)
      else if duplicates > 1 then Declined(Ambiguous)
      else if |gaps| == 1 then Found(TemporalGap, gaps[0], step)
      else Found(TemporalNextValue, hi + step, step)
  }

  lemma {:induction false} DiffsExist(s: seq<int>)
    requires |s| >= 2
    ensures Diffs(s) != []
  {
  }

  function MonthIndexes(dates: seq<Date>): (r: seq<int>)
    ensures |r| == |dates|
  {
    if dates == [] then [] else [MonthIndex(dates[0])] + MonthIndexes(dates[1..])
  }

  function Years(dates: seq<Date>): (r: seq<int>)
    ensures |r| == |dates|
  {
    if dates == [] then [] else [dates[0].year] + Years(dates[1..])
  }

  predicate SameDay(dates: seq<Date>)
    requires dates != []
  {
    forall d :: d in dates ==> d.day == dates[0].day
  }

  predicate MonthEnds(dates: seq<Date>) {
    forall d :: d in dates ==> IsMonthEnd(d)
  }

  /** `_try_calendar_month_interval` on the distinct dates in order; month-end wins over same-day. */
  function TryMonths(dates: seq<Date>, duplicates: nat): Outcome<Date> {
    if |dates| < 2 then Declined(NoRelationship)
    else if !SameDay(dates) && !MonthEnds(dates) then Declined(NoRelationship)
    else
      DiffsExist(MonthIndexes(dates));
      match Place(MonthIndexes(dates), duplicates, MAX_EXPECTED_MONTHS)
      case Declined(status) => Declined(status)
      case Failed(e) => Failed(e)
      case Found(strategy, index, step) =>
        var day := if strategy == TemporalGap then dates[0].day else dates[|dates| - 1].day;
        var date := InMonth(index, day, MonthEnds(dates));
        if date.None? || date.value in dates then Declined(Ambiguous) else Found(strategy, date.value, step)
  }

  predicate SameMonthDay(dates: seq<Date>)
    requires dates != []
  {
    forall d :: d in dates ==> d.month == dates[0].month && d.day == dates[0].day
  }

  /** `_try_calendar_year_interval`: the gap's date is built outside any try block. */
  function TryYears(dates: seq<Date>, duplicates: nat): Outcome<Date> {
    if |dates| < 2 then Declined(NoRelationship)
    else if !SameMonthDay(dates) then Declined(NoRelationship)
    else
      DiffsExist(Years(dates));
      match Place(Years(dates), duplicates, MAX_EXPECTED_YEARS)
      case Declined(status) => Declined(status)
      case Failed(e) => Failed(e)
      case Found(strategy, year, step) =>
        var date := MakeDate(year, dates[0].month, dates[0].day);
        if date.None? then (if strategy == TemporalGap then Failed(NoSuchDate) else Declined(Ambiguous))
        else if date.value in dates then Declined(Ambiguous)
        else Found(strategy, date.value, step)
  }

  // --- the engine ------------------------------------------------------------------------------

  function Readable(o: Observation): Option<Observation> {
    if o.Unreadable? then None else Some(o)
  }

  function TimeOf(o: Observation): TimeOfDay { if o.Stamp? then o.time else 0 }

  function OffsetOf(o: Observation): Option<int> { if o.Stamp? then o.offset else None }

  function InstantOf(o: Observation): Option<int> {
    if o.Unreadable? then None else Some(Instant(o.date, TimeOf(o)))
  }

  function CodeOf(o: Observation): Option<int> {
    if o.Unreadable? then None else Some(Code(o.date))
  }

  /** Neither naive and aware values together, nor two offsets. */
  predicate Uniform(parsed: seq<Observation>) {
    parsed == [] || forall o :: o in parsed ==> OffsetOf(o) == OffsetOf(parsed[0])
  }

  predicate OneTimeOfDay(parsed: seq<Observation>) {
    parsed == [] || forall o :: o in parsed ==> TimeOf(o) == TimeOf(parsed[0])
  }

  function Decode(codes: seq<int>): (dates: seq<Date>)
    ensures |dates| == |codes|
  {
    if codes == [] then [] else [FromCode(codes[0])] + Decode(codes[1..])
  }

  function Confidence(distinct: nat): real {
    if distinct >= 2 * MIN_SUPPORTING_TRANSITIONS then 1.0
    else distinct as real / (2 * MIN_SUPPORTING_TRANSITIONS) as real
  }

  function FixedEvidence(found: Outcome<int>, unique: seq<int>, duplicates: nat, observed: nat): Evidence
    requires found.Found? && |unique| >= 2 && Increasing(unique)
  {
    DiffsPositive(unique);
    var support := Count(Diffs(unique), found.step);
    Evidence(found.strategy, FixedInterval, found.value, found.step, observed, duplicates,
             if found.strategy == TemporalGap then 1 else 0, support, |unique| - 1 - support,
             support as real / (|unique| - 1) as real, Confidence(|unique|))
  }

  function CalendarEvidence(found: Outcome<Date>, kind: Kind, time: TimeOfDay, distinct: nat, duplicates: nat,
                            observed: nat): Evidence
    requires found.Found? && IsDate(found.value)
  {
    Evidence(found.strategy, kind, Instant(found.value, time), found.step, observed, duplicates,
             if found.strategy == TemporalGap then 1 else 0, distinct, 0, 1.0, Confidence(distinct))
  }

  lemma FoundDatesAreDates(dates: seq<Date>, duplicates: nat)
    ensures TryYears(dates, duplicates).Found? ==> IsDate(TryYears(dates, duplicates).value)
    ensures TryMonths(dates, duplicates).Found? ==> IsDate(TryMonths(dates, duplicates).value)
  {
    hide Place, SameDay, MonthEnds, SameMonthDay, IsDate, MakeDate, InMonth;
  }

  /** What the calendar strategies add when the fixed interval declined with `status`. */
  function Calendars(parsed: seq<Observation>, status: Status): Result
    requires parsed != []
  {
    var codes := FilterMap(parsed, CodeOf);
    var unique := SortUnique(codes);
    var dates, duplicates, time := Decode(unique), Excess(unique, codes), TimeOf(parsed[0]);
    FoundDatesAreDates(dates, duplicates);
    var years, months := TryYears(dates, duplicates), TryMonths(dates, duplicates);
    if years.Failed? then Raised(years.error)
    else if years.Found? then
      Result(Candidate, |parsed|, Some(CalendarEvidence(years, CalendarYears, time, |dates|, duplicates, |parsed|)))
    else if months.Found? then
      Result(Candidate, |parsed|, Some(CalendarEvidence(months, CalendarMonths, time, |dates|, duplicates, |parsed|)))
    else Result(status, |parsed|, None)
  }

  /** `discover_temporal_evidence` */
  function Discover(observed: seq<Observation>): Result {
    var parsed := FilterMap(observed, Readable);
    if !Uniform(parsed) then Result(Ambiguous, 0, None)
    else if |parsed| < MIN_OBSERVATIONS then Result(InsufficientGroup, |parsed|, None)
    else
      var instants := FilterMap(parsed, InstantOf);
      var unique := SortUnique(instants);
      if |unique| < 2 then Result(NoRelationship, |parsed|, None)
      else
        var duplicates := Excess(unique, instants);
        match Fixed(unique, duplicates)
        case Failed(e) => Raised(e)
        case Found(strategy, value, step) =>
          Result(Candidate, |parsed|, Some(FixedEvidence(Found(strategy, value, step), unique, duplicates, |parsed|)))
        case Declined(status) =>
          if OneTimeOfDay(parsed) then Calendars(parsed, status) else Result(status, |parsed|, None)
  }
}
