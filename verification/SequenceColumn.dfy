/** The sequence engine on the raw column: what counts as observed, which template covers it, and what noise does. */
module SequenceColumn {
  import opened Collections
  import opened Text
  import opened Identifiers
  import opened Progression
  import opened Grids
  import opened SequenceEvidence
  import opened SequenceRecovery

  // --- observations and followers of a template -----------------------------------------------------

  /** Not null, and not nothing but spaces. */
  ghost predicate IsObserved(v: Option<string>) {
    v.Some? && HasText(v.value)
  }

  ghost predicate IsIdentifier(v: Option<string>) {
    IsObserved(v) && ParseIdentifier(v.value).Some?
  }

  /** The identifier v is written with the template t. */
  ghost predicate Follows(v: Option<string>, t: Template) {
    IsIdentifier(v) && ParseIdentifier(v.value).value.template == t
  }

  ghost function Observations(column: seq<Option<string>>): set<nat> {
    set i: nat | i < |column| && IsObserved(column[i])
  }

  ghost function Followers(column: seq<Option<string>>, t: Template): set<nat> {
    set i: nat | i < |column| && Follows(column[i], t)
  }

  /** Nine tenths of the observations follow the template. */
  ghost predicate Covers(column: seq<Option<string>>, t: Template) {
    10 * |Followers(column, t)| >= 9 * |Observations(column)|
  }

  ghost function Following(t: Template): Option<string> -> Option<Parsed> {
    (v: Option<string>) => if Follows(v, t) then Some(ParseIdentifier(v.value).value) else None
  }

  ghost function NumberFollowing(t: Template): Option<string> -> Option<int> {
    (v: Option<string>) => if Follows(v, t) then Some(ParseIdentifier(v.value).value.number) else None
  }

  /** The numbers of the column's identifiers with this template, in column order. */
  ghost function NumbersIn(column: seq<Option<string>>, t: Template): seq<int> {
    FilterMap(column, NumberFollowing(t))
  }

  lemma ShownIffObserved(v: Option<string>)
    ensures Shown(v).Some? <==> IsObserved(v)
    ensures Shown(v).Some? ==> Shown(v) == v
  {
    if v.Some? { BlankIffNoText(v.value); }
  }

  lemma ObservationCount(column: seq<Option<string>>)
    ensures |FilterMap(column, Shown)| == |Observations(column)|
  {
    hide Shown, IsObserved;
    forall i: nat | i < |column| ensures Shown(column[i]).Some? <==> IsObserved(column[i]) {
      ShownIffObserved(column[i]);
    }
    FilterMapCount(column, Shown, Observations(column));
  }

  function ParsedIn(column: seq<Option<string>>): seq<Parsed> {
    FilterMap(FilterMap(column, Shown), ParseIdentifier)
  }

  lemma {:induction false} MembersFollow(column: seq<Option<string>>, t: Template)
    ensures Members(ParsedIn(column), t) == FilterMap(column, Following(t))
    ensures FilterMap(FilterMap(column, Following(t)), NumberOf) == NumbersIn(column, t)
  {
    if column != [] {
      MembersFollow(column[1..], t);
      ShownIffObserved(column[0]);
      hide Shown, IsObserved, ParseIdentifier;
    }
  }

  lemma FollowerCount(column: seq<Option<string>>, t: Template)
    ensures |FilterMap(column, Following(t))| == |Followers(column, t)|
    ensures |NumbersIn(column, t)| == |Followers(column, t)|
  {
    hide IsIdentifier;
    FilterMapCount(column, Following(t), Followers(column, t));
    FilterMapCount(column, NumberFollowing(t), Followers(column, t));
  }

  // --- the template that covers the column --------------------------------------------------------------

  lemma ModeCovers(parsed: seq<Parsed>, t: Template, total: nat)
    requires |parsed| <= total && 0 < total && 10 * |Members(parsed, t)| >= 9 * total
    ensures DominantTemplate(parsed, total) == Some(Group(t, Members(parsed, t)))
  {
    hide Members, Mode, Templates;
    TemplateCount(parsed, t);
    if parsed != [] {
      TemplateCount(parsed, parsed[0].template);
      ModeIsMostCommon(Templates(parsed));
      var m := Mode(Templates(parsed));
      TemplateCount(parsed, m);
      if m != t { TwoCounts(Templates(parsed), m, t); }
    }
  }

  lemma ModeIsCovering(parsed: seq<Parsed>, total: nat)
    requires DominantTemplate(parsed, total).Some?
    ensures 10 * |Members(parsed, DominantTemplate(parsed, total).value.template)| >= 9 * total
  {
  }

  /** The dominant template is the one that covers the column, if there is one. */
  lemma DominantIffCovers(column: seq<Option<string>>, t: Template)
    requires |Observations(column)| > 0
    ensures Covers(column, t) ==> Dominant(column) == Some(Group(t, FilterMap(column, Following(t))))
    ensures Dominant(column).Some? ==> Covers(column, Dominant(column).value.template)
  {
    var parsed, n := ParsedIn(column), |Observations(column)|;
    ObservationCount(column);
    FilterMapLength(FilterMap(column, Shown), ParseIdentifier);
    MembersFollow(column, t);
    FollowerCount(column, t);
    hide FilterMap, Following, Observations, Followers, Members, DominantTemplate;
    if Covers(column, t) { ModeCovers(parsed, t, n); }
    if Dominant(column).Some? {
      var u := Dominant(column).value.template;
      ModeIsCovering(parsed, n);
      MembersFollow(column, u);
      FollowerCount(column, u);
    }
  }

  /** Fewer than five observations are too few, and without a template that covers them there is no relationship. */
  lemma CoverageDecides(column: seq<Option<string>>)
    ensures var r, n := Discover(column), |Observations(column)|;
      && r.observedCount == n
      && (r.status == InsufficientGroup <==> n < 5)
      && (n >= 5 && (forall t :: !Covers(column, t)) ==> r.status == NoRelationship)
      && (r.status == Candidate ==> r.best.Some? && Covers(column, r.best.value.template))
  {
    ObservationCount(column);
    hide FilterMap, Observations, Covers, DominantTemplate, Propose;
    if |Observations(column)| >= 5 {
      if Dominant(column).Some? { DominantIffCovers(column, Dominant(column).value.template); }
      NeverInsufficient(column);
    }
  }

  lemma NeverInsufficient(column: seq<Option<string>>)
    requires |FilterMap(column, Shown)| >= 5
    ensures Discover(column).status != InsufficientGroup
    ensures Dominant(column).None? ==> Discover(column).status == NoRelationship
    ensures Discover(column).status == Candidate ==>
      && Discover(column).best.Some? && Dominant(column).Some?
      && Discover(column).best.value.template == Dominant(column).value.template
  {
    hide FilterMap, DominantTemplate, SortUnique, Measure, Absent, Range, TooWide;
  }

  /** Under a covering template the numbers written with it decide. */
  lemma NumbersDecide(column: seq<Option<string>>, t: Template)
    requires |Observations(column)| >= 5 && Covers(column, t)
    ensures var r, p := Discover(column), Propose(NumbersIn(column, t));
      && (r.status == Candidate <==> p.Proposed?)
      && (p.Declined? ==> r.status == p.status)
      && (p.Proposed? ==>
            && r.best.Some? && r.best.value.strategy == p.strategy && r.best.value.template == t
            && r.best.value.grid == p.grid
            && r.best.value.candidateValue == Format(t, p.number, SoleWidth(FilterMap(column, Following(t)))))
  {
    ObservationCount(column);
    DominantIffCovers(column, t);
    MembersFollow(column, t);
    var numbers := NumbersIn(column, t);
    ProposalIsWellPlaced(numbers);
    ProposeDeclines(numbers);
    hide FilterMap, Observations, Covers, DominantTemplate, Propose, SoleWidth, Format, WellPlaced;
    if Propose(numbers).Proposed? {
      DiscoverDescribes(column, Group(t, FilterMap(column, Following(t))), numbers);
    }
  }

  // --- recovery through noise -------------------------------------------------------------------------------

  lemma FormatFollows(t: Template, number: int, width: Option<nat>)
    requires WellFormed(t)
    ensures var v := Some(Format(t, number, width));
      && IsObserved(v) && Following(t)(v) == Some(ParsedNumber(number, t, width))
      && forall u :: Follows(v, u) <==> u == t
  {
    FormatIsShown(t, number, width);
    ShownIffObserved(Some(Format(t, number, width)));
    FormatRoundTrip(t, number, width);
    hide IsObserved, Shown, Format, ParseIdentifier;
  }

  lemma {:induction false} RenderedFollow(numbers: seq<int>, t: Template, width: Option<nat>)
    requires WellFormed(t)
    ensures FilterMap(Render(numbers, t, width), Following(t)) == ParsedColumn(numbers, t, width)
    ensures forall v :: v in Render(numbers, t, width) ==> IsObserved(v)
  {
    hide IsObserved, Following, WellFormed, ParsedNumber, Format;
    if numbers != [] {
      RenderedFollow(numbers[1..], t, width);
      FormatFollows(t, numbers[0], width);
    }
  }

  lemma {:induction false} NoneFollow<U>(noise: seq<Option<string>>, f: Option<string> -> Option<U>)
    requires forall v :: v in noise ==> f(v).None?
    ensures FilterMap(noise, f) == []
  {
    if noise != [] {
      assert noise[0] in noise;
      NoneFollow(noise[1..], f);
    }
  }

  /** A rendered column with noise after it: the noise adds observations and no follower. */
  lemma NoisyColumn(numbers: seq<int>, t: Template, width: Option<nat>, noise: seq<Option<string>>)
    requires WellFormed(t) && forall v :: v in noise ==> !Follows(v, t)
    ensures var column := Render(numbers, t, width) + noise;
      && FilterMap(column, Following(t)) == ParsedColumn(numbers, t, width)
      && NumbersIn(column, t) == numbers
      && |Followers(column, t)| == |numbers|
      && |Observations(column)| == |numbers| + |Observations(noise)|
  {
    var rendered := Render(numbers, t, width);
    RenderedFollow(numbers, t, width);
    FilterMapAppend(rendered, noise, Following(t));
    NoneFollow(noise, Following(t));
    MembersFollow(rendered + noise, t);
    ColumnNumbers(numbers, t, width);
    FollowerCount(rendered + noise, t);
    ObservationCount(rendered + noise);
    ObservationCount(noise);
    FilterMapAppend(rendered, noise, Shown);
    forall v | v in rendered ensures Shown(v).Some? { ShownIffObserved(v); }
    FilterMapLength(rendered, Shown);
  }

  /** The column of a progression without its k-th term, with noise among it, in any order. */
  ghost predicate IsNoisy(t: Template, first: int, step: int, n: nat, k: nat, width: Option<nat>,
                          noise: seq<Option<string>>, observed: seq<Option<string>>)
    requires k < n
  {
    && WellFormed(t) && step >= 1 && 6 <= n <= MAX_EXPECTED_RANGE_SLOTS && 0 < k < n - 1
    && (forall v :: v in noise ==> !Follows(v, t))
    && multiset(observed) == multiset(Render(Without(first, step, n, k), t, width) + noise)
  }

  /** The deleted number, written with the width that the others share. */
  ghost function GoneText(t: Template, first: int, step: int, n: nat, k: nat, width: Option<nat>): string
    requires k < n
  {
    Format(t, first + k * step, SoleWidth(ParsedColumn(Without(first, step, n, k), t, width)))
  }

  /**
    Deletion recovery through noise: nulls and blanks do not count, and as long as the other texts are at most a ninth
    of the identifiers the deleted number comes back.
  */
  lemma RecoveryThroughNoise(t: Template, first: int, step: int, n: nat, k: nat, width: Option<nat>,
                             noise: seq<Option<string>>, observed: seq<Option<string>>)
    requires k < n && IsNoisy(t, first, step, n, k, width, noise, observed) && 9 * |Observations(noise)| <= n - 1
    ensures Recovers(observed, GoneText(t, first, step, n, k, width))
  {
    hide *;
    var numbers := Without(first, step, n, k);
    var column := Render(numbers, t, width) + noise;
    NoisyIsCovered(t, first, step, n, k, width, noise, observed);
    RecoversFromNumbers(column, t, numbers, first + k * step);
    GoneTextIs(t, first, step, n, k, width);
    SameRecovery(column, observed, GoneText(t, first, step, n, k, width));
  }

  lemma GoneTextIs(t: Template, first: int, step: int, n: nat, k: nat, width: Option<nat>)
    requires k < n
    ensures GoneText(t, first, step, n, k, width)
         == Format(t, first + k * step, SoleWidth(ParsedColumn(Without(first, step, n, k), t, width)))
  {
  }

  lemma SameRecovery(xs: seq<Option<string>>, ys: seq<Option<string>>, text: string)
    requires multiset(xs) == multiset(ys) && Recovers(xs, text)
    ensures Recovers(ys, text)
  {
    OrderIndependence(xs, ys);
    hide Discover;
  }

  lemma NoisyIsCovered(t: Template, first: int, step: int, n: nat, k: nat, width: Option<nat>,
                       noise: seq<Option<string>>, observed: seq<Option<string>>)
    requires k < n && IsNoisy(t, first, step, n, k, width, noise, observed) && 9 * |Observations(noise)| <= n - 1
    ensures var numbers := Without(first, step, n, k);
      var column := Render(numbers, t, width) + noise;
      && multiset(observed) == multiset(column)
      && |Observations(column)| >= 5 && Covers(column, t) && NumbersIn(column, t) == numbers
      && FilterMap(column, Following(t)) == ParsedColumn(numbers, t, width)
      && Proposes(numbers, first + k * step)
  {
    var numbers := Without(first, step, n, k);
    NoisyColumn(numbers, t, width, noise);
    ProposeWithout(first, step, n, k, numbers);
    hide Without, Render, ParsedColumn, WellFormed, Observations, Followers, Follows, NumbersIn, FilterMap, Proposes;
  }

  lemma RecoversFromNumbers(column: seq<Option<string>>, t: Template, numbers: seq<int>, gone: int)
    requires |Observations(column)| >= 5 && Covers(column, t)
    requires NumbersIn(column, t) == numbers && Proposes(numbers, gone)
    ensures Recovers(column, Format(t, gone, SoleWidth(FilterMap(column, Following(t)))))
  {
    NumbersDecide(column, t);
    hide Discover, Propose, Format, SoleWidth, FilterMap, Observations, Covers;
  }

  /** With more texts than that which are no identifiers there is no relationship. */
  lemma TooMuchNoise(t: Template, first: int, step: int, n: nat, k: nat, width: Option<nat>,
                     noise: seq<Option<string>>, observed: seq<Option<string>>)
    requires k < n && IsNoisy(t, first, step, n, k, width, noise, observed) && 9 * |Observations(noise)| > n - 1
    requires forall v :: v in noise ==> !IsIdentifier(v)
    ensures Discover(observed).status == NoRelationship
  {
    var numbers := Without(first, step, n, k);
    var column := Render(numbers, t, width) + noise;
    hide Discover, Without, Render, WellFormed, Observations, Follows, Covers, IsIdentifier;
    OrderIndependence(observed, column);
    NoisyColumn(numbers, t, width, noise);
    forall u ensures !Covers(column, u) { NoiseUncovers(numbers, t, width, noise, u); }
    CoverageDecides(column);
  }

  lemma NoiseUncovers(numbers: seq<int>, t: Template, width: Option<nat>, noise: seq<Option<string>>, u: Template)
    requires WellFormed(t) && numbers != [] && 9 * |Observations(noise)| > |numbers|
    requires forall v :: v in noise ==> !IsIdentifier(v)
    ensures !Covers(Render(numbers, t, width) + noise, u)
  {
    var rendered := Render(numbers, t, width);
    NoisyColumn(numbers, t, width, noise);
    if u != t {
      RenderedFollowNoOther(numbers, t, width, u);
      FilterMapAppend(rendered, noise, Following(u));
      NoneFollow(noise, Following(u));
      FollowerCount(rendered + noise, u);
    }
  }

  lemma {:induction false} RenderedFollowNoOther(numbers: seq<int>, t: Template, width: Option<nat>, u: Template)
    requires WellFormed(t) && u != t
    ensures FilterMap(Render(numbers, t, width), Following(u)) == []
  {
    if numbers != [] {
      RenderedFollowNoOther(numbers[1..], t, width, u);
      FormatRoundTrip(t, numbers[0], width);
      hide IsObserved, Format, ParseIdentifier;
    }
  }

  // --- what the numbers propose, as a set on a grid -----------------------------------------------------------

  /** The distinct numbers, their ends, their step, and the slots they miss. */
  ghost predicate IsGridOf(numbers: seq<int>, lo: int, hi: int, step: int, gaps: set<int>) {
    var values := ValuesOf(numbers);
    && IsLeast(values, lo) && IsGreatest(values, hi) && IsStepOf(values, step)
    && gaps == SlotsBetween(lo, hi + step, step) - values
  }

  /** The counts of a grid, from the set of its numbers. */
  ghost predicate IsMeasuredBy(g: Grid, numbers: seq<int>, lo: int, hi: int, step: int, gaps: set<int>)
    requires step > 0
  {
    var values := ValuesOf(numbers);
    && g.step == step && g.minValue == lo && g.maxValue == hi && g.gapCount == |gaps|
    && g.duplicateCount == |numbers| - |values| && g.distinctCount == |values|
    && g.supporting == |Jumps(values, step)| && g.contradicting == |values| - 1 - |Jumps(values, step)|
    && g.slotCount == |SlotsBetween(lo, hi + step, step)|
  }

  lemma MeasureFields(unique: seq<int>, numbers: seq<int>)
    requires |unique| >= 2 && Increasing(unique) && forall x :: x in unique ==> x in numbers
    ensures var g := Measure(unique, numbers);
      && Diffs(unique) != [] && g.step == Mode(Diffs(unique)) && g.step > 0
      && g.minValue == unique[0] && g.maxValue == unique[|unique| - 1]
      && g.gapCount == |Absent(Slots(g), unique)| && g.duplicateCount == Excess(unique, numbers)
      && g.distinctCount == |unique| && g.supporting == Count(Diffs(unique), g.step)
      && g.contradicting == |unique| - 1 - g.supporting && g.slotCount == |Slots(g)|
  {
    DiffsPositive(unique);
    hide Diffs, Mode, Count, Absent, Range, Excess, Increasing;
  }

  lemma MeasureIsGrid(numbers: seq<int>, unique: seq<int>)
    requires unique == SortUnique(numbers) && |unique| >= 2
    ensures var g := Measure(unique, numbers);
      var gaps := ValuesOf(Absent(Slots(g), unique));
      && g.step > 0 && IsGridOf(numbers, g.minValue, g.maxValue, g.step, gaps)
      && IsMeasuredBy(g, numbers, g.minValue, g.maxValue, g.step, gaps)
      && |unique| == |ValuesOf(numbers)| && g.gapCount == |Absent(Slots(g), unique)|
  {
    hide Measure, SortUnique, Diffs, Mode, Count, Absent, Range, IsStepOf, SlotsBetween, Excess, Jumps, Increasing,
         IsLeast, IsGreatest;
    assert ValuesOf(unique) == ValuesOf(numbers);
    hide ValuesOf;
    MeasureFields(unique, numbers);
    IncreasingCount(unique);
    EndsOf(unique);
    ModeIsTheStep(unique);
    var g := Measure(unique, numbers);
    DiffsCountJumps(unique, g.step);
    AbsentAreMissing(g.minValue, g.maxValue + g.step, g.step, unique);
    ExcessIsSurplus(numbers);
    RangeIncreases(g.minValue, g.maxValue + g.step, g.step);
    IncreasingCount(Range(g.minValue, g.maxValue + g.step, g.step));
  }

  lemma GridIsUnique(numbers: seq<int>, lo: int, hi: int, step: int, gaps: set<int>,
                     lo': int, hi': int, step': int, gaps': set<int>)
    requires IsGridOf(numbers, lo, hi, step, gaps) && IsGridOf(numbers, lo', hi', step', gaps')
    ensures lo == lo' && hi == hi' && step == step' && gaps == gaps'
  {
    StepIsUnique(ValuesOf(numbers), step, step');
    hide IsStepOf, SlotsBetween;
  }

  /** Too few agreeing jumps, too wide a span, or nothing missing and nothing repeated. */
  ghost predicate IsNoSequence(numbers: seq<int>, lo: int, hi: int, step: int, gaps: set<int>)
    requires step > 0
  {
    var n, support := |ValuesOf(numbers)|, |Jumps(ValuesOf(numbers), step)|;
    2 * support < n - 1 || (hi - lo) / step + 1 > 10000 || (gaps == {} && |numbers| == n)
  }

  /** At most one missing slot and at most one repeat, with three jumps that agree. */
  ghost predicate IsClear(numbers: seq<int>, step: int, gaps: set<int>) {
    |gaps| <= 1 && |numbers| - |ValuesOf(numbers)| <= 1 && |Jumps(ValuesOf(numbers), step)| >= 3
  }

  /** The proposal as a function of the numbers: what is declined, and which number is proposed otherwise. */
  lemma ProposalIsDecided(numbers: seq<int>, lo: int, hi: int, step: int, gaps: set<int>)
    requires |ValuesOf(numbers)| >= 2 && IsGridOf(numbers, lo, hi, step, gaps)
    ensures var p := Propose(numbers);
      && (p == Declined(NoRelationship) <==> IsNoSequence(numbers, lo, hi, step, gaps))
      && (p == Declined(Ambiguous) <==> !IsNoSequence(numbers, lo, hi, step, gaps) && !IsClear(numbers, step, gaps))
      && (p.Proposed? <==> !IsNoSequence(numbers, lo, hi, step, gaps) && IsClear(numbers, step, gaps))
      && (p.Proposed? ==>
            && (if gaps == {} then p.strategy == SequenceNextValue && p.number == hi + step
                else p.strategy == SequenceGap && gaps == {p.number})
            && IsMeasuredBy(p.grid, numbers, lo, hi, step, gaps))
  {
    var unique := SortUnique(numbers);
    DistinctNumbers(numbers);
    MeasureIsGrid(numbers, unique);
    var g := Measure(unique, numbers);
    var absent := Absent(Slots(g), unique);
    GridIsUnique(numbers, lo, hi, step, gaps, g.minValue, g.maxValue, g.step, ValuesOf(absent));
    ProposalIsWellPlaced(numbers);
    if |absent| == 1 { OneValue(absent); }
    hide IsGridOf, Measure, SortUnique, Absent, Slots, WellPlaced, Jumps, SlotsBetween, ValuesOf, TooWide;
    ProposalTable(numbers, unique, g, absent);
    hide Propose;
    WidthTest(lo, hi, step);
  }

  lemma WidthTest(lo: int, hi: int, step: int)
    requires step > 0
    ensures TooWide(lo, hi, step) <==> (hi - lo) / step + 1 > 10000
  {
  }

  /** The branches of the engine, on the measured grid. */
  lemma ProposalTable(numbers: seq<int>, unique: seq<int>, g: Grid, absent: seq<int>)
    requires unique == SortUnique(numbers) && |unique| >= 2 && g == Measure(unique, numbers) && g.step > 0
    requires absent == Absent(Slots(g), unique) && g.gapCount == |absent| && !Propose(numbers).Collided?
    ensures var p := Propose(numbers);
      var isNone := 2 * g.supporting < g.supporting + g.contradicting || TooWide(g.minValue, g.maxValue, g.step)
                    || (g.gapCount == 0 && g.duplicateCount == 0);
      var isClear := g.gapCount <= 1 && g.duplicateCount <= 1 && g.supporting >= 3;
      && (p == Declined(NoRelationship) <==> isNone)
      && (p == Declined(Ambiguous) <==> !isNone && !isClear)
      && (p.Proposed? <==> !isNone && isClear)
      && (p.Proposed? ==>
            && p.grid == g && p.strategy == (if g.gapCount == 1 then SequenceGap else SequenceNextValue)
            && p.number == if g.gapCount == 1 then absent[0] else g.maxValue + g.step)
  {
    hide Measure, SortUnique, Absent, Slots, TooWide;
  }

  lemma OneValue(xs: seq<int>)
    requires |xs| == 1
    ensures ValuesOf(xs) == {xs[0]}
  {
    assert xs == [xs[0]];
  }

  lemma DistinctNumbers(numbers: seq<int>)
    ensures |SortUnique(numbers)| == |ValuesOf(numbers)|
  {
    IncreasingCount(SortUnique(numbers));
    assert ValuesOf(SortUnique(numbers)) == ValuesOf(numbers);
  }

  lemma FewNumbersPropose(numbers: seq<int>)
    requires |ValuesOf(numbers)| < 2
    ensures Propose(numbers) == Declined(NoRelationship)
  {
    DistinctNumbers(numbers);
  }

  /** The ratios reported with a candidate. */
  ghost predicate AreRatiosOf(e: Evidence) {
    var g, pairs := e.grid, e.grid.supporting + e.grid.contradicting;
    && e.stepConsistency * pairs as real == g.supporting as real
    && e.coverageRatio * g.slotCount as real == (g.slotCount - g.gapCount) as real
    && (if g.distinctCount >= 10 then e.confidence == e.stepConsistency
        else 10.0 * e.confidence == e.stepConsistency * g.distinctCount as real)
  }

  lemma DescriptionHasRatios(strategy: Strategy, g: Grid, number: int, group: Group, observed: nat)
    requires g.slotCount > 0 && g.supporting + g.contradicting > 0 && g.gapCount <= g.slotCount
    ensures AreRatiosOf(Describe(strategy, g, number, group, observed))
    ensures Describe(strategy, g, number, group, observed).observedCount == observed
  {
    hide Format, SoleWidth;
    var e := Describe(strategy, g, number, group, observed);
    assert e.stepConsistency * (g.supporting + g.contradicting) as real == g.supporting as real;
    var share := g.distinctCount as real / 10.0;
    assert e.confidence == e.stepConsistency * Minimum(1.0, share);
    if g.distinctCount < 10 {
      assert 10.0 * (e.stepConsistency * share) == e.stepConsistency * (10.0 * share);
    }
  }

  lemma RatiosAreReported(column: seq<Option<string>>)
    requires Discover(column).status == Candidate
    ensures Discover(column).best.Some? && AreRatiosOf(Discover(column).best.value)
    ensures Discover(column).best.value.observedCount == |Observations(column)|
  {
    ObservationCount(column);
    CandidateIffProposed(column);
    var group, n := Dominant(column).value, |FilterMap(column, Shown)|;
    var numbers := FilterMap(group.members, NumberOf);
    ProposedGrid(numbers);
    var p := Propose(numbers);
    hide FilterMap, DominantTemplate, Propose, SortUnique, Measure, Observations, Describe, AreRatiosOf;
    DescriptionHasRatios(p.strategy, p.grid, p.number, group, n);
  }
}
