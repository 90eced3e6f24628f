/** The sequence engine: one gap, or one duplicate, in a column of identifiers. */
module SequenceEvidence {
  import opened Collections
  import opened Text
  import opened Identifiers
  import opened Progression

  const MIN_OBSERVATIONS := 5
  const MIN_SUPPORTING_TRANSITIONS := 3
  const MAX_EXPECTED_RANGE_SLOTS := 10000

  datatype Strategy = SequenceGap | SequenceNextValue

  /** What the engine learned about the grid of numbers. */
  datatype Grid = Grid(step: int, minValue: int, maxValue: int, gapCount: nat, duplicateCount: nat,
                       distinctCount: nat, supporting: nat, contradicting: nat, slotCount: nat)

  datatype Proposal =
    | Declined(status: Status)
    | Collided(grid: Grid, number: int)
    | Proposed(strategy: Strategy, grid: Grid, number: int)

  datatype Evidence = Evidence(strategy: Strategy, candidateValue: string, template: Template, grid: Grid,
                               observedCount: nat, stepConsistency: real, coverageRatio: real, confidence: real)

  datatype Result = Result(status: Status, observedCount: nat, best: Option<Evidence>)

  datatype Group = Group(template: Template, members: seq<Parsed>)

  // --- the dominant template ---------------------------------------------------

  function TemplateOf(p: Parsed): Option<Template> { Some(p.template) }

  function Templates(parsed: seq<Parsed>): seq<Template> { FilterMap(parsed, TemplateOf) }

  function Having(t: Template): Parsed -> Option<Parsed> {
    (p: Parsed) => if p.template == t then Some(p) else None
  }

  function Members(parsed: seq<Parsed>, t: Template): seq<Parsed> { FilterMap(parsed, Having(t)) }

  lemma {:induction false} TemplateCount(parsed: seq<Parsed>, t: Template)
    ensures |Templates(parsed)| == |parsed|
    ensures |Members(parsed, t)| == Count(Templates(parsed), t)
  {
    if parsed != [] {
      TemplateCount(parsed[1..], t);
      assert Templates(parsed) == [parsed[0].template] + Templates(parsed[1..]);
    }
  }

  /** The largest group, if it covers nine tenths of all non-null observations. */
  function DominantTemplate(parsed: seq<Parsed>, total: nat): (r: Option<Group>) {
    if parsed == [] || total == 0 then None
    else
      TemplateCount(parsed, parsed[0].template);
      var t := Mode(Templates(parsed));
      var members := Members(parsed, t);
      if 10 * |members| < 9 * total then None else Some(Group(t, members))
  }

  /** The dictionary after some rows: one entry per template met, in order of first appearance. */
  ghost predicate IsGrouping(parsed: seq<Parsed>, order: seq<Template>, groups: map<Template, seq<Parsed>>) {
    && (forall t :: t in order <==> t in groups)
    && (forall t :: t in groups <==> t in Templates(parsed))
    && (forall t :: t in groups ==> groups[t] == Members(parsed, t))
    && InFirstOrder(order, Templates(parsed))
  }

  /** The groups dictionary is filled row by row, then its largest entry is taken and its coverage tested. */
  method FindDominantTemplate(parsed: seq<Parsed>, total: nat) returns (r: Option<Group>)
    ensures r == DominantTemplate(parsed, total)
  {
    if parsed == [] || total == 0 { return None; }
    var order: seq<Template> := [];
    var groups: map<Template, seq<Parsed>> := map[];
    var i := 0;
    assert IsGrouping([], order, groups);
    hide IsGrouping, Templates, Members, Count;
    while i < |parsed|
      invariant 0 <= i <= |parsed|
      invariant IsGrouping(parsed[..i], order, groups)
    {
      var p := parsed[i];
      GroupOneMore(parsed[..i], order, groups, p);
      assert parsed[..i + 1] == parsed[..i] + [p];
      if p.template in groups {
        groups := groups[p.template := groups[p.template] + [p]];
      } else {
        groups := groups[p.template := [p]];
        order := order + [p.template];
      }
      i := i + 1;
    }
    assert parsed[..i] == parsed;
    GroupingKeys(parsed, order, groups);
    var b := LargestEntry(order, groups);
    LargestEntryIsMode(parsed, order, groups, b);
    var members := groups[order[b]];
    r := if 10 * |members| < 9 * total then None else Some(Group(order[b], members));
  }

  /** `max(groups.items(), key=len)`, which keeps the first of equals. */
  method LargestEntry(order: seq<Template>, groups: map<Template, seq<Parsed>>) returns (b: nat)
    requires order != [] && forall t :: t in order ==> t in groups
    ensures b < |order|
    ensures forall k :: 0 <= k < |order| ==> |groups[order[k]]| <= |groups[order[b]]|
    ensures forall k :: 0 <= k < b ==> |groups[order[k]]| < |groups[order[b]]|
  {
    b := 0;
    var j := 1;
    while j < |order|
      invariant 0 <= b < j <= |order|
      invariant forall k :: 0 <= k < j ==> |groups[order[k]]| <= |groups[order[b]]|
      invariant forall k :: 0 <= k < b ==> |groups[order[k]]| < |groups[order[b]]|
    {
      if |groups[order[j]]| > |groups[order[b]]| { b := j; }
      j := j + 1;
    }
  }

  lemma GroupingKeys(parsed: seq<Parsed>, order: seq<Template>, groups: map<Template, seq<Parsed>>)
    requires IsGrouping(parsed, order, groups)
    ensures forall t :: t in order <==> t in groups
    ensures parsed != [] ==> order != []
  {
    if parsed != [] {
      assert Templates(parsed)[0] == parsed[0].template;
      assert parsed[0].template in Templates(parsed);
      assert parsed[0].template in order;
    }
  }

  lemma LargestEntryIsMode(parsed: seq<Parsed>, order: seq<Template>, groups: map<Template, seq<Parsed>>, b: nat)
    requires parsed != [] && IsGrouping(parsed, order, groups) && b < |order|
    requires forall k :: 0 <= k < |order| ==> |groups[order[k]]| <= |groups[order[b]]|
    requires forall k :: 0 <= k < b ==> |groups[order[k]]| < |groups[order[b]]|
    ensures Templates(parsed) != [] && order[b] == Mode(Templates(parsed))
    ensures groups[order[b]] == Members(parsed, order[b])
  {
    forall k | 0 <= k < |order| ensures groups[order[k]] == Members(parsed, order[k]) { }
    FirstLargestIsMode(parsed, order, b);
  }

  lemma GroupOneMore(parsed: seq<Parsed>, order: seq<Template>, groups: map<Template, seq<Parsed>>, p: Parsed)
    requires IsGrouping(parsed, order, groups)
    ensures p.template in groups ==>
      IsGrouping(parsed + [p], order, groups[p.template := groups[p.template] + [p]])
    ensures p.template !in groups ==>
      IsGrouping(parsed + [p], order + [p.template], groups[p.template := [p]])
  {
    hide InFirstOrder, Count;
    var longer := groups[p.template := if p.template in groups then groups[p.template] + [p] else [p]];
    FilterMapSnoc(parsed, p, TemplateOf);
    KeepFirstOrder(order, Templates(parsed), p.template);
    if p.template !in groups { NoMembersYet(parsed, p.template); }
    forall t | t in longer ensures longer[t] == Members(parsed + [p], t) {
      FilterMapSnoc(parsed, p, Having(t));
    }
  }

  lemma FirstLargestIsMode(parsed: seq<Parsed>, order: seq<Template>, b: nat)
    requires parsed != [] && b < |order|
    requires forall t :: t in Templates(parsed) ==> t in order
    requires InFirstOrder(order, Templates(parsed))
    requires forall k :: 0 <= k < |order| ==> |Members(parsed, order[k])| <= |Members(parsed, order[b])|
    requires forall k :: 0 <= k < b ==> |Members(parsed, order[k])| < |Members(parsed, order[b])|
    ensures Templates(parsed) != [] && order[b] == Mode(Templates(parsed))
  {
    var ts := Templates(parsed);
    TemplateCount(parsed, order[b]);
    var m := Mode(ts);
    TemplateCount(parsed, m);
    ModeIsMostCommon(ts);
    assert ts[..|ts|] == ts;
    var k :| 0 <= k < |order| && order[k] == m;
    ModeIsFirst(ts, |ts|, order[b]);
  }

  ghost predicate InFirstOrder(order: seq<Template>, ts: seq<Template>) {
    && (forall t :: t in order ==> t in ts)
    && forall i, j :: 0 <= i < j < |order| ==> FirstIndex(ts, order[i]) < FirstIndex(ts, order[j])
  }

  lemma KeepFirstOrder(order: seq<Template>, ts: seq<Template>, t: Template)
    requires InFirstOrder(order, ts) && (forall s :: s in order <==> s in ts)
    ensures t in ts ==> InFirstOrder(order, ts + [t])
    ensures t !in ts ==> InFirstOrder(order + [t], ts + [t])
  {
    forall s | s in ts || s == t
      ensures s in ts + [t] && FirstIndex(ts + [t], s) == if s in ts then FirstIndex(ts, s) else |ts|
    {
      FirstIndexSnoc(ts, t, s);
    }
    if t !in ts {
      var longer := order + [t];
      forall i, j | 0 <= i < j < |longer|
        ensures longer[i] in ts + [t] && longer[j] in ts + [t]
        ensures FirstIndex(ts + [t], longer[i]) < FirstIndex(ts + [t], longer[j])
      {
        assert longer[i] == order[i] && order[i] in ts;
        if j < |order| { assert longer[j] == order[j] && order[j] in ts; }
      }
    }
  }

  lemma {:induction false} NoMembersYet(parsed: seq<Parsed>, t: Template)
    requires t !in Templates(parsed)
    ensures Members(parsed, t) == []
  {
    TemplateCount(parsed, t);
  }

  // --- gaps and duplicates on the grid of numbers --------------------------------

  /** Step, range, gaps, duplicates and support of at least two distinct sorted values. */
  function Measure(unique: seq<int>, numbers: seq<int>): (g: Grid)
    requires |unique| >= 2 && Increasing(unique)
    requires forall x :: x in unique ==> x in numbers
    ensures g.step > 0
  {
    var diffs := Diffs(unique);
    DiffsPositive(unique);
    var step := Mode(diffs);
    var supporting := Count(diffs, step);
    var minValue, maxValue := unique[0], unique[|unique| - 1];
    var slots := Range(minValue, maxValue + step, step);
    Grid(step, minValue, maxValue, |Absent(slots, unique)|, Excess(unique, numbers), |unique|,
         supporting, |diffs| - supporting, |slots|)
  }

  function Slots(g: Grid): seq<int>
    requires g.step > 0
  {
    Range(g.minValue, g.maxValue + g.step, g.step)
  }

  /** The cap on the slots the span would need. */
  predicate TooWide(lo: int, hi: int, step: int)
    requires step > 0
  {
    (hi - lo) / step + 1 > MAX_EXPECTED_RANGE_SLOTS
  }

  /** Everything `discover_sequence_evidence` decides from the numbers of the dominant group. */
  function Propose(numbers: seq<int>): (r: Proposal) {
    var unique := SortUnique(numbers);
    if |unique| < 2 then Declined(NoRelationship)
    else
      var g := Measure(unique, numbers);
      if 2 * g.supporting < g.supporting + g.contradicting then Declined(NoRelationship)
      else if TooWide(g.minValue, g.maxValue, g.step) then Declined(NoRelationship)
      else if g.gapCount == 0 && g.duplicateCount == 0 then Declined(NoRelationship)
      else if g.gapCount > 1 then Declined(Ambiguous)
      else if g.duplicateCount > 1 then Declined(Ambiguous)
      else if g.supporting < MIN_SUPPORTING_TRANSITIONS then Declined(Ambiguous)
      else
        var number := if g.gapCount == 1 then Absent(Slots(g), unique)[0] else g.maxValue + g.step;
        if number in unique then Collided(g, number)
        else Proposed(if g.gapCount == 1 then SequenceGap else SequenceNextValue, g, number)
  }

  /** The width shared by all members, if there is one. */
  function SoleWidth(members: seq<Parsed>): Option<nat> {
    if members != [] && forall m :: m in members ==> m.width == members[0].width then Some(members[0].width)
    else None
  }

  function NumberOf(p: Parsed): Option<int> { Some(p.number) }

  function Describe(strategy: Strategy, g: Grid, number: int, group: Group, observed: nat): (e: Evidence)
    requires g.slotCount > 0 && g.supporting + g.contradicting > 0 && g.gapCount <= g.slotCount
  {
    var consistency := g.supporting as real / (g.supporting + g.contradicting) as real;
    Evidence(strategy, Format(group.template, number, SoleWidth(group.members)), group.template, g, observed,
             consistency, (g.slotCount - g.gapCount) as real / g.slotCount as real,
             consistency * Minimum(1.0, g.distinctCount as real / (2 * MIN_OBSERVATIONS) as real))
  }

  function Shown(v: Option<string>): Option<string> {
    if v.Some? && Strip(v.value) != "" then v else None
  }

  /** `discover_sequence_evidence`: a null observation is None, any other is its text. */
  function Discover(observed: seq<Option<string>>): (r: Result) {
    var nonNull := FilterMap(observed, Shown);
    var n := |nonNull|;
    if n < MIN_OBSERVATIONS then Result(InsufficientGroup, n, None)
    else
      match DominantTemplate(FilterMap(nonNull, ParseIdentifier), n)
      case None => Result(NoRelationship, n, None)
      case Some(group) =>
        match Propose(FilterMap(group.members, NumberOf))
        case Declined(status) => Result(status, n, None)
        case Collided(_, _) => Result(Ambiguous, n, None)
        case Proposed(strategy, grid, number) =>
          ProposedGrid(FilterMap(group.members, NumberOf));
          Result(Candidate, n, Some(Describe(strategy, grid, number, group, n)))
  }

  // --- what a proposal means ------------------------------------------------------

  /** Slot x belongs to `range(min, max + step, step)`. */
  ghost predicate IsSlot(g: Grid, x: int)
    requires g.step > 0
  {
    g.minValue <= x < g.maxValue + g.step && (x - g.minValue) % g.step == 0
  }

  /** Where a proposed number lies: on the grid, absent, with every other expected slot present. */
  ghost predicate WellPlaced(numbers: seq<int>, strategy: Strategy, g: Grid, number: int) {
    && g.step > 0 && g.minValue in numbers && g.maxValue in numbers
    && (forall x :: x in numbers ==> g.minValue <= x <= g.maxValue)
    && number !in numbers
    && (number - g.minValue) % g.step == 0
    && (forall x :: IsSlot(g, x) && x != number ==> x in numbers)
    && match strategy
       case SequenceGap =>
         && g.minValue < number < g.maxValue + g.step
         && ((g.maxValue - g.minValue) % g.step == 0 ==> number < g.maxValue)
       case SequenceNextValue => number == g.maxValue + g.step && g.duplicateCount == 1
  }

  lemma MeasureFacts(unique: seq<int>, numbers: seq<int>)
    requires |unique| >= 2 && Increasing(unique)
    requires forall x :: x in unique ==> x in numbers
    ensures var g := Measure(unique, numbers);
      && g.supporting + g.contradicting == g.distinctCount - 1 == |unique| - 1
      && g.minValue == unique[0] && g.maxValue == unique[|unique| - 1]
      && g.slotCount == |Slots(g)| && g.gapCount == |Absent(Slots(g), unique)| <= g.slotCount
      && 1 < g.slotCount
      && (TooWide(g.minValue, g.maxValue, g.step) || g.slotCount <= MAX_EXPECTED_RANGE_SLOTS + 1)
  {
    hide Range, Absent, Excess, Diffs, Count, TooWide;
    var g := Measure(unique, numbers);
    DiffsPositive(unique);
    SlotCount(g.minValue, g.maxValue, g.step);
  }

  /** The overshooting range has at most one slot more than the span suggests. */
  lemma SlotCount(lo: int, hi: int, step: int)
    requires lo < hi && step > 0
    ensures 1 < |Range(lo, hi + step, step)|
    ensures TooWide(lo, hi, step) || |Range(lo, hi + step, step)| <= MAX_EXPECTED_RANGE_SLOTS + 1
  {
    var n := |Range(lo, hi + step, step)|;
    RangeLength(lo, hi + step, step);
    StepOver(n - 2, step);
    QuotientAtLeast(n - 2, hi - lo, step);
    if n <= 1 { MulLe(n, 1, step); }
  }

  lemma ProposedGrid(numbers: seq<int>)
    requires !Propose(numbers).Declined?
    ensures |SortUnique(numbers)| >= 2
    ensures var g := Propose(numbers).grid;
      && g == Measure(SortUnique(numbers), numbers)
      && g.supporting >= MIN_SUPPORTING_TRANSITIONS && g.gapCount <= 1 && 1 < g.slotCount
      && g.supporting + g.contradicting == g.distinctCount - 1
      && g.slotCount <= MAX_EXPECTED_RANGE_SLOTS + 1
  {
    MeasureFacts(SortUnique(numbers), numbers);
  }

  /** Every proposed number is fresh and well placed on the grid, and the collision branch is unreachable. */
  lemma ProposalIsWellPlaced(numbers: seq<int>)
    ensures !Propose(numbers).Collided?
    ensures Propose(numbers).Proposed? ==>
      WellPlaced(numbers, Propose(numbers).strategy, Propose(numbers).grid, Propose(numbers).number)
  {
    var p := Propose(numbers);
    if !p.Declined? {
      var unique := SortUnique(numbers);
      ProposalSpans(numbers);
      ProposalIsReadOff(numbers);
      ReadOffIsWellPlaced(unique, p.grid, p.number);
      var strategy := if p.grid.gapCount == 1 then SequenceGap else SequenceNextValue;
      WellPlacedAmong(unique, numbers, strategy, p.grid, p.number);
    }
  }

  /** How a proposed number was read off the grid. */
  ghost predicate ReadOff(unique: seq<int>, g: Grid, number: int) {
    && g.step > 0 && |Absent(Slots(g), unique)| == g.gapCount
    && if g.gapCount == 1 then number == Absent(Slots(g), unique)[0]
       else g.gapCount == 0 && g.duplicateCount == 1 && number == g.maxValue + g.step
  }

  lemma ProposalIsReadOff(numbers: seq<int>)
    requires !Propose(numbers).Declined?
    ensures ReadOff(SortUnique(numbers), Propose(numbers).grid, Propose(numbers).number)
  {
    hide Measure, SortUnique, Absent, Range, TooWide;
    ProposedGrid(numbers);
    MeasureFacts(SortUnique(numbers), numbers);
  }

  lemma ProposalSpans(numbers: seq<int>)
    requires !Propose(numbers).Declined?
    ensures Spans(SortUnique(numbers), Propose(numbers).grid)
  {
    var unique, g := SortUnique(numbers), Propose(numbers).grid;
    ProposedGrid(numbers);
    MeasureFacts(unique, numbers);
    EndsAreExtreme(unique);
    SlotsAreGrid(g);
  }

  lemma ReadOffIsWellPlaced(unique: seq<int>, g: Grid, number: int)
    requires Spans(unique, g) && ReadOff(unique, g, number)
    ensures WellPlaced(unique, if g.gapCount == 1 then SequenceGap else SequenceNextValue, g, number)
  {
    if g.gapCount == 1 {
      GapIsInside(unique, g);
    } else {
      NextContinuesTheGrid(unique, g);
    }
  }

  lemma WellPlacedAmong(unique: seq<int>, numbers: seq<int>, strategy: Strategy, g: Grid, number: int)
    requires WellPlaced(unique, strategy, g, number) && forall x :: x in unique <==> x in numbers
    ensures WellPlaced(numbers, strategy, g, number)
  {
  }

  lemma SlotsAreGrid(g: Grid)
    requires g.step > 0
    ensures forall x :: x in Slots(g) <==> IsSlot(g, x)
  {
    forall x ensures x in Slots(g) <==> IsSlot(g, x) {
      RangeMembers(g.minValue, g.maxValue + g.step, g.step, x);
    }
  }

  lemma EndsAreExtreme(unique: seq<int>)
    requires unique != [] && Increasing(unique)
    ensures unique[0] in unique && unique[|unique| - 1] in unique
    ensures forall x :: x in unique ==> unique[0] <= x <= unique[|unique| - 1]
  {
  }

  ghost predicate Spans(unique: seq<int>, g: Grid) {
    && g.step > 0 && g.minValue in unique && g.maxValue in unique
    && (forall x :: x in unique ==> g.minValue <= x <= g.maxValue)
    && (forall x :: x in Slots(g) <==> IsSlot(g, x))
  }

  lemma GapIsInside(unique: seq<int>, g: Grid)
    requires Spans(unique, g) && |Absent(Slots(g), unique)| == 1
    ensures WellPlaced(unique, SequenceGap, g, Absent(Slots(g), unique)[0])
  {
    var gaps := Absent(Slots(g), unique);
    var x := gaps[0];
    assert gaps == [x] && x in gaps;
    if (g.maxValue - g.minValue) % g.step == 0 && x > g.maxValue {
      SameResidueFar(g.minValue, g.maxValue, x, g.step);
    }
  }

  /** Two grid values less than a step apart are the same. */
  lemma SameResidueFar(lo: int, a: int, b: int, step: int)
    requires step > 0 && a < b && (a - lo) % step == 0 && (b - lo) % step == 0
    ensures b >= a + step
  {
    var p, q := (a - lo) / step, (b - lo) / step;
    assert a - lo == p * step && b - lo == q * step;
    if q <= p { MulLe(q, p, step); } else { MulLe(p + 1, q, step); StepOver(p, step); }
  }

  /** With no gap the last slot is the maximum, so one step more stays on the grid. */
  lemma NextContinuesTheGrid(unique: seq<int>, g: Grid)
    requires Spans(unique, g) && Absent(Slots(g), unique) == [] && g.duplicateCount == 1
    ensures WellPlaced(unique, SequenceNextValue, g, g.maxValue + g.step)
  {
    var gaps := Absent(Slots(g), unique);
    assert forall y :: y in Slots(g) ==> y in unique || y in gaps;
    NextSlotUp(g.minValue, g.maxValue, g.step);
    var top := g.minValue + ((g.maxValue - g.minValue) / g.step + 1) * g.step;
    var isSlot := IsSlot(g, top);
    assert isSlot <==> top < g.maxValue + g.step;
  }

  lemma NextSlotUp(lo: int, hi: int, step: int)
    requires step > 0 && lo <= hi
    ensures var top := lo + ((hi - lo) / step + 1) * step;
      hi < top <= hi + step && (top - lo) % step == 0
  {
    var q := (hi - lo) / step;
    assert hi - lo == q * step + (hi - lo) % step;
    StepOver(q, step);
    DivideWithin(q + 1, 0, step);
  }

  // --- the candidate text -----------------------------------------------------------

  /** The numbers of all observations that follow template t. */
  function NumbersOf(observed: seq<Option<string>>, t: Template): seq<int> {
    FilterMap(Members(FilterMap(FilterMap(observed, Shown), ParseIdentifier), t), NumberOf)
  }

  /** The template that covers the observations, if one does. */
  function Dominant(observed: seq<Option<string>>): Option<Group> {
    var nonNull := FilterMap(observed, Shown);
    DominantTemplate(FilterMap(nonNull, ParseIdentifier), |nonNull|)
  }

  /** A candidate is reported exactly when the numbers of a dominant template propose one. */
  lemma CandidateIffProposed(observed: seq<Option<string>>)
    ensures var r := Discover(observed);
      && (r.status == Candidate <==> r.best.Some?)
      && (r.status == Candidate <==>
            |FilterMap(observed, Shown)| >= MIN_OBSERVATIONS && Dominant(observed).Some?
            && Propose(NumbersOf(observed, Dominant(observed).value.template)).Proposed?)
  {
    if Dominant(observed).Some? {
      var t := Dominant(observed).value.template;
      ProposalIsWellPlaced(NumbersOf(observed, t));
      ProposeDeclines(NumbersOf(observed, t));
    }
  }

  lemma DiscoverDescribes(observed: seq<Option<string>>, group: Group, numbers: seq<int>)
    requires |FilterMap(observed, Shown)| >= MIN_OBSERVATIONS && Dominant(observed) == Some(group)
    requires FilterMap(group.members, NumberOf) == numbers && Propose(numbers).Proposed?
    ensures Discover(observed).status == Candidate && Discover(observed).best.Some?
    ensures var e, p := Discover(observed).best.value, Propose(numbers);
      && e.strategy == p.strategy && e.grid == p.grid && e.template == group.template
      && e.candidateValue == Format(group.template, p.number, SoleWidth(group.members))
  {
    ProposedGrid(numbers);
  }

  lemma ProposeDeclines(numbers: seq<int>)
    ensures Propose(numbers).Declined? ==> Propose(numbers).status != Candidate
  {
  }

  lemma NumbersMember(observed: seq<Option<string>>, text: string)
    requires Some(text) in observed && ParseIdentifier(text).Some? && Strip(text) != ""
    ensures ParseIdentifier(text).value.number in NumbersOf(observed, ParseIdentifier(text).value.template)
  {
    var p := ParseIdentifier(text).value;
    var nonNull := FilterMap(observed, Shown);
    FilterMapMember(observed, Shown, text);
    assert Shown(Some(text)) == Some(text);
    FilterMapMember(nonNull, ParseIdentifier, p);
    var parsed := FilterMap(nonNull, ParseIdentifier);
    FilterMapMember(parsed, Having(p.template), p);
    assert Having(p.template)(p) == Some(p);
    FilterMapMember(Members(parsed, p.template), NumberOf, p.number);
    assert NumberOf(p) == Some(p.number);
  }

  lemma DominantIsWellFormed(observed: seq<Option<string>>)
    requires Dominant(observed).Some?
    ensures WellFormed(Dominant(observed).value.template)
  {
    var t := Dominant(observed).value.template;
    var nonNull := FilterMap(observed, Shown);
    var parsed := FilterMap(nonNull, ParseIdentifier);
    FilterMapMember(parsed, TemplateOf, t);
    var p :| p in parsed && TemplateOf(p) == Some(t);
    FilterMapMember(nonNull, ParseIdentifier, p);
    var text :| text in nonNull && ParseIdentifier(text) == Some(p);
    ParsedTemplateIsWellFormed(text);
  }

  /** Every candidate reads back as the dominant template and its number, equals no observation, and is well placed. */
  lemma CandidateIsFreshAndWellPlaced(observed: seq<Option<string>>)
    requires Discover(observed).status == Candidate
    ensures Discover(observed).best.Some? && Dominant(observed).Some?
    ensures var e, t := Discover(observed).best.value, Dominant(observed).value.template;
      && e.template == t
      && ParseIdentifier(e.candidateValue).Some?
      && ParseIdentifier(e.candidateValue).value.template == t
      && WellPlaced(NumbersOf(observed, t), e.strategy, e.grid, ParseIdentifier(e.candidateValue).value.number)
      && e.grid.slotCount <= MAX_EXPECTED_RANGE_SLOTS + 1
      && (forall v :: v in observed && v.Some? ==> v.value != e.candidateValue && Strip(v.value) != e.candidateValue)
  {
    CandidateIffProposed(observed);
    var e, group := Discover(observed).best.value, Dominant(observed).value;
    var numbers := NumbersOf(observed, group.template);
    var p := Propose(numbers);
    ProposalIsWellPlaced(numbers);
    ProposedGrid(numbers);
    DominantIsWellFormed(observed);
    FormatRoundTrip(group.template, p.number, SoleWidth(group.members));
    StripIdentity(e.candidateValue);
    forall v | v in observed && v.Some? ensures Strip(v.value) != e.candidateValue {
      if Strip(v.value) == e.candidateValue {
        NumbersMember(observed, v.value);
        assert false;
      }
    }
  }
}
