/** The sequence engine over whole columns: order never matters, and a deleted identifier comes back. */
module SequenceRecovery {
  import opened Collections
  import opened Text
  import opened Identifiers
  import opened Progression
  import opened SequenceEvidence

  // --- order independence ----------------------------------------------------------

  /** A template that covers nine tenths of the observations is the only one that does. */
  lemma DominantPermutation(xs: seq<Parsed>, ys: seq<Parsed>, total: nat)
    requires multiset(xs) == multiset(ys) && |xs| <= total
    ensures DominantTemplate(xs, total).Some? <==> DominantTemplate(ys, total).Some?
    ensures DominantTemplate(xs, total).Some? ==>
      && DominantTemplate(xs, total).value.template == DominantTemplate(ys, total).value.template
      && multiset(DominantTemplate(xs, total).value.members) == multiset(DominantTemplate(ys, total).value.members)
  {
    SameMembers(xs, ys);
    if xs != [] && total != 0 {
      FilterMapPermutation(xs, ys, TemplateOf);
      ModesAgree(xs, ys, total);
      FilterMapPermutation(xs, ys, Having(DominantMode(xs)));
    }
  }

  function DominantMode(xs: seq<Parsed>): Template
    requires xs != []
  {
    TemplateCount(xs, xs[0].template);
    Mode(Templates(xs))
  }

  lemma ModesAgree(xs: seq<Parsed>, ys: seq<Parsed>, total: nat)
    requires multiset(Templates(xs)) == multiset(Templates(ys)) && 0 < |xs| == |ys| <= total
    ensures |Members(xs, DominantMode(xs))| == |Members(ys, DominantMode(ys))|
    ensures 10 * |Members(xs, DominantMode(xs))| < 9 * total || DominantMode(xs) == DominantMode(ys)
  {
    var t, u := DominantMode(xs), DominantMode(ys);
    TemplateCount(xs, t);
    TemplateCount(ys, u);
    CountPermutation(Templates(xs), Templates(ys), t);
    CountPermutation(Templates(xs), Templates(ys), u);
    ModeIsMostCommon(Templates(xs));
    ModeIsMostCommon(Templates(ys));
    if t != u { TwoCounts(Templates(xs), t, u); }
  }

  lemma SoleWidthPermutation(xs: seq<Parsed>, ys: seq<Parsed>)
    requires multiset(xs) == multiset(ys)
    ensures SoleWidth(xs) == SoleWidth(ys)
  {
    SameMembers(xs, ys);
    if xs != [] && ys != [] {
      assert xs[0] in xs && ys[0] in ys;
      assert ys[0] in xs && xs[0] in ys;
    }
  }

  lemma ProposePermutation(xs: seq<int>, ys: seq<int>)
    requires multiset(xs) == multiset(ys)
    ensures Propose(xs) == Propose(ys)
  {
    hide SortUnique, Excess;
    SortUniquePermutation(xs, ys);
    ExcessPermutation(SortUnique(xs), xs, ys);
  }

  /** The whole result is a function of the multiset of observations. */
  lemma OrderIndependence(xs: seq<Option<string>>, ys: seq<Option<string>>)
    requires multiset(xs) == multiset(ys)
    ensures Discover(xs) == Discover(ys)
  {
    hide FilterMap, ParseIdentifier, Shown, DominantTemplate, Propose, SoleWidth;
    FilterMapPermutation(xs, ys, Shown);
    var a, b := FilterMap(xs, Shown), FilterMap(ys, Shown);
    SameMembers(a, b);
    FilterMapPermutation(a, b, ParseIdentifier);
    FilterMapLength(a, ParseIdentifier);
    var p, q := FilterMap(a, ParseIdentifier), FilterMap(b, ParseIdentifier);
    DominantPermutation(p, q, |a|);
    if DominantTemplate(p, |a|).Some? {
      var g, h := DominantTemplate(p, |a|).value, DominantTemplate(q, |a|).value;
      SoleWidthPermutation(g.members, h.members);
      FilterMapPermutation(g.members, h.members, NumberOf);
      ProposePermutation(FilterMap(g.members, NumberOf), FilterMap(h.members, NumberOf));
    }
  }

  // --- deletion recovery --------------------------------------------------------------

  lemma MeasureOfDistinct(numbers: seq<int>, step: int, supporting: nat)
    requires Increasing(numbers) && |numbers| >= 2 && step > 0
    requires IsUniqueMode(Diffs(numbers), step, supporting)
    ensures var g := Measure(numbers, numbers);
      && g.step == step && g.minValue == numbers[0] && g.maxValue == numbers[|numbers| - 1]
      && g.supporting == supporting && g.contradicting == 1 && g.duplicateCount == 0
      && g.gapCount == |Absent(Slots(g), numbers)|
      && Slots(g) == Range(numbers[0], numbers[|numbers| - 1] + step, step)
  {
    ExcessZero(numbers, numbers);
  }

  lemma MeasureWithout(first: int, step: int, n: nat, k: nat, numbers: seq<int>)
    requires step >= 1 && n >= 6 && 0 < k < n - 1 && numbers == Without(first, step, n, k)
    ensures SortUnique(numbers) == numbers && |numbers| >= 2
    ensures var g := Measure(numbers, numbers);
      && g.step == step && g.maxValue + step == g.minValue + n * step
      && g.supporting == n - 3 && g.contradicting == 1 && g.duplicateCount == 0 && g.gapCount == 1
      && Absent(Slots(g), numbers) == [first + k * step]
  {
    hide Without, Measure, Absent, Range, SortUnique, Terms, Diffs, IsUniqueMode;
    WithoutIncreases(first, step, n, k);
    IncreasingUnique(SortUnique(numbers), numbers);
    var end := numbers[|numbers| - 1] + step;
    assert numbers[0] == first && end == first + n * step by {
      WithoutEnds(first, step, n, k);
      StepOver(n - 1, step);
    }
    assert Absent(Range(numbers[0], end, step), numbers) == [first + k * step] by {
      RangeToEnd(first, step, n, end);
      WithoutGap(first, step, n, k);
    }
    WithoutMode(first, step, n, k);
    MeasureOfDistinct(numbers, step, n - 3);
  }

  lemma RangeToEnd(first: int, step: int, n: nat, end: int)
    requires step > 0 && end == first + n * step
    ensures Range(first, end, step) == Terms(first, step, n)
  {
    RangeIsTerms(first, step, n);
  }

  lemma SpanFits(lo: int, hi: int, step: int, n: nat)
    requires step >= 1 && 1 <= n <= MAX_EXPECTED_RANGE_SLOTS && hi + step == lo + n * step
    ensures !TooWide(lo, hi, step)
  {
    StepOver(n - 1, step);
    DivideWithin(n - 1, 0, step);
  }

  lemma ProposeWithout(first: int, step: int, n: nat, k: nat, numbers: seq<int>)
    requires step >= 1 && 6 <= n <= MAX_EXPECTED_RANGE_SLOTS && 0 < k < n - 1
    requires numbers == Without(first, step, n, k)
    ensures |numbers| == n - 1
    ensures Proposes(numbers, first + k * step)
  {
    MeasureWithout(first, step, n, k, numbers);
    var g := Measure(numbers, numbers);
    SpanFits(g.minValue, g.maxValue, step, n);
    ProposalIsWellPlaced(numbers);
  }

  /** The numbers propose this gap. */
  ghost predicate Proposes(numbers: seq<int>, number: int) {
    var p := Propose(numbers);
    p.Proposed? && p.strategy == SequenceGap && p.number == number
  }

  /** A column of identifiers, each written with one template and one way of padding. */
  function Render(numbers: seq<int>, t: Template, width: Option<nat>): (column: seq<Option<string>>)
    ensures |column| == |numbers|
  {
    if numbers == [] then [] else [Some(Format(t, numbers[0], width))] + Render(numbers[1..], t, width)
  }

  /** What the engine parses from such a column. */
  function ParsedColumn(numbers: seq<int>, t: Template, width: Option<nat>): (parsed: seq<Parsed>)
    ensures |parsed| == |numbers|
    ensures forall i :: 0 <= i < |parsed| ==> parsed[i] == ParsedNumber(numbers[i], t, width)
  {
    if numbers == [] then [] else [ParsedNumber(numbers[0], t, width)] + ParsedColumn(numbers[1..], t, width)
  }

  function ParsedNumber(number: int, t: Template, width: Option<nat>): Parsed {
    Parsed(Format(t, number, width), t, number, |Numeral(Magnitude(number), width)|)
  }

  function Texts(numbers: seq<int>, t: Template, width: Option<nat>): seq<string> {
    if numbers == [] then [] else [Format(t, numbers[0], width)] + Texts(numbers[1..], t, width)
  }

  lemma {:induction false} RenderedIsShown(numbers: seq<int>, t: Template, width: Option<nat>)
    requires WellFormed(t)
    ensures FilterMap(Render(numbers, t, width), Shown) == Texts(numbers, t, width)
    ensures |Texts(numbers, t, width)| == |numbers|
  {
    if numbers != [] {
      RenderedIsShown(numbers[1..], t, width);
      FormatIsShown(t, numbers[0], width);
    }
  }

  lemma FormatIsShown(t: Template, number: int, width: Option<nat>)
    requires WellFormed(t)
    ensures Shown(Some(Format(t, number, width))) == Some(Format(t, number, width))
  {
    FormatRoundTrip(t, number, width);
    StripIdentity(Format(t, number, width));
  }

  lemma {:induction false} RenderedIsParsed(numbers: seq<int>, t: Template, width: Option<nat>)
    requires WellFormed(t)
    ensures FilterMap(Texts(numbers, t, width), ParseIdentifier) == ParsedColumn(numbers, t, width)
  {
    if numbers != [] {
      RenderedIsParsed(numbers[1..], t, width);
      FormatRoundTrip(t, numbers[0], width);
    }
  }

  lemma {:induction false} OneTemplate(parsed: seq<Parsed>, t: Template)
    requires forall p :: p in parsed ==> p.template == t
    ensures Members(parsed, t) == parsed
    ensures forall u :: u in Templates(parsed) ==> u == t
  {
    if parsed != [] {
      var p := parsed[0];
      assert p in parsed;
      OneTemplate(parsed[1..], t);
      assert Templates(parsed) == [t] + Templates(parsed[1..]);
    }
  }

  lemma {:induction false} ColumnNumbers(numbers: seq<int>, t: Template, width: Option<nat>)
    ensures FilterMap(ParsedColumn(numbers, t, width), NumberOf) == numbers
  {
    if numbers != [] { ColumnNumbers(numbers[1..], t, width); }
  }

  lemma ColumnIsDominated(numbers: seq<int>, t: Template, width: Option<nat>)
    requires WellFormed(t) && numbers != []
    ensures |FilterMap(Render(numbers, t, width), Shown)| == |numbers|
    ensures Dominant(Render(numbers, t, width)) == Some(Group(t, ParsedColumn(numbers, t, width)))
  {
    var parsed := ParsedColumn(numbers, t, width);
    RenderedIsShown(numbers, t, width);
    RenderedIsParsed(numbers, t, width);
    OneTemplate(parsed, t);
    TemplateCount(parsed, parsed[0].template);
  }

  /** The engine reports a gap candidate with this text. */
  ghost predicate Recovers(observed: seq<Option<string>>, text: string) {
    var r := Discover(observed);
    r.status == Candidate && r.best.Some? && r.best.value.strategy == SequenceGap && r.best.value.candidateValue == text
  }

  lemma DiscoverColumn(numbers: seq<int>, t: Template, width: Option<nat>, gone: int)
    requires WellFormed(t) && |numbers| >= MIN_OBSERVATIONS && Proposes(numbers, gone)
    ensures Recovers(Render(numbers, t, width), Format(t, gone, SoleWidth(ParsedColumn(numbers, t, width))))
  {
    ColumnIsDominated(numbers, t, width);
    ColumnNumbers(numbers, t, width);
    DiscoverDescribes(Render(numbers, t, width), Group(t, ParsedColumn(numbers, t, width)), numbers);
  }

  /** For any progression the deleted number is recovered; its text follows the width the other members share. */
  lemma DeletedNumberIsRecovered(t: Template, first: int, step: int, n: nat, k: nat, width: Option<nat>,
                                 numbers: seq<int>, observed: seq<Option<string>>)
    requires WellFormed(t) && step >= 1 && 6 <= n <= MAX_EXPECTED_RANGE_SLOTS && 0 < k < n - 1
    requires numbers == Without(first, step, n, k)
    requires multiset(observed) == multiset(Render(numbers, t, width))
    ensures Recovers(observed, Format(t, first + k * step, SoleWidth(ParsedColumn(numbers, t, width))))
  {
    hide Discover, Propose, Without, Render, ParsedColumn, WellFormed, Format, SoleWidth;
    ProposeWithout(first, step, n, k, numbers);
    DiscoverColumn(numbers, t, width, first + k * step);
    OrderIndependence(observed, Render(numbers, t, width));
  }

  /** Deletion recovery, zero-padded: every term fits the width, and the deleted text comes back. */
  lemma PaddedDeletionRecovery(t: Template, first: int, step: int, n: nat, k: nat, width: nat,
                               observed: seq<Option<string>>)
    requires WellFormed(t) && step >= 1 && 6 <= n <= MAX_EXPECTED_RANGE_SLOTS && 0 < k < n - 1
    requires forall x :: x in Terms(first, step, n) ==> |Decimal(Magnitude(x))| <= width
    requires multiset(observed) == multiset(Render(Without(first, step, n, k), t, Some(width)))
    ensures Recovers(observed, Format(t, first + k * step, Some(width)))
  {
    hide Discover, Propose, Without, Terms, Render, WellFormed, Decimal, Format;
    var numbers := Without(first, step, n, k);
    WithoutIncreases(first, step, n, k);
    PaddedColumnWidth(numbers, t, width);
    DeletedNumberIsRecovered(t, first, step, n, k, Some(width), numbers, observed);
  }

  lemma PaddedColumnWidth(numbers: seq<int>, t: Template, width: nat)
    requires numbers != [] && forall x :: x in numbers ==> |Decimal(Magnitude(x))| <= width
    ensures SoleWidth(ParsedColumn(numbers, t, Some(width))) == Some(width)
  {
    hide Decimal, Format, Magnitude;
    var column := ParsedColumn(numbers, t, Some(width));
    forall m | m in column ensures m.width == width {
      var i :| 0 <= i < |column| && column[i] == m;
      assert numbers[i] in numbers;
    }
    assert column[0] in column;
  }

  /**
    Deletion recovery, plain decimal: the deleted text comes back exactly when the other members do not
    all share a width that is greater than the deleted term's own.
  */
  lemma PlainDeletionRecovery(t: Template, first: int, step: int, n: nat, k: nat, observed: seq<Option<string>>)
    requires WellFormed(t) && step >= 1 && 6 <= n <= MAX_EXPECTED_RANGE_SLOTS && 0 < k < n - 1
    requires multiset(observed) == multiset(Render(Without(first, step, n, k), t, None))
    ensures var gone := first + k * step;
      Recovers(observed, Format(t, gone, None)) <==>
        !(exists w: nat :: w > |Decimal(Magnitude(gone))| && AllOfWidth(Without(first, step, n, k), w))
  {
    var numbers, gone := Without(first, step, n, k), first + k * step;
    var column := ParsedColumn(numbers, t, None);
    DeletedNumberIsRecovered(t, first, step, n, k, None, numbers, observed);
    SoleWidthOfPlain(numbers, t);
    FormatWidths(t, gone, SoleWidth(column));
  }

  ghost predicate AllOfWidth(numbers: seq<int>, w: nat) {
    forall x :: x in numbers ==> |Decimal(Magnitude(x))| == w
  }

  lemma SoleWidthOfPlain(numbers: seq<int>, t: Template)
    requires numbers != []
    ensures forall w: nat :: SoleWidth(ParsedColumn(numbers, t, None)) == Some(w) <==> AllOfWidth(numbers, w)
  {
    var column := ParsedColumn(numbers, t, None);
    assert column[0] in column && numbers[0] in numbers;
    forall w: nat ensures SoleWidth(column) == Some(w) <==> AllOfWidth(numbers, w) {
      if SoleWidth(column) == Some(w) {
        forall x | x in numbers ensures |Decimal(Magnitude(x))| == w {
          var i :| 0 <= i < |numbers| && numbers[i] == x;
          assert column[i] in column;
        }
      }
      if AllOfWidth(numbers, w) {
        forall m | m in column ensures m.width == w {
          var i :| 0 <= i < |column| && column[i] == m;
          assert numbers[i] in numbers;
        }
      }
    }
  }

  lemma FormatWidths(t: Template, x: int, width: Option<nat>)
    ensures Format(t, x, width) == Format(t, x, None) <==> width.None? || width.value <= |Decimal(Magnitude(x))|
  {
    if width.Some? && width.value > |Decimal(Magnitude(x))| {
      assert |Format(t, x, width)| > |Format(t, x, None)|;
    }
  }

  /** A progression of non-negative terms never meets the exception. */
  lemma NonNegativeDeletionRecovery(t: Template, first: nat, step: int, n: nat, k: nat, observed: seq<Option<string>>)
    requires WellFormed(t) && step >= 1 && 6 <= n <= MAX_EXPECTED_RANGE_SLOTS && 0 < k < n - 1
    requires multiset(observed) == multiset(Render(Without(first, step, n, k), t, None))
    ensures Recovers(observed, Format(t, first + k * step, None))
  {
    PlainDeletionRecovery(t, first, step, n, k, observed);
    var numbers := Without(first, step, n, k);
    WithoutEnds(first, step, n, k);
    assert numbers[0] == first && first in numbers;
    MulLe(0, k, step);
    DecimalLengthMonotone(first, first + k * step);
    forall w: nat | AllOfWidth(numbers, w) ensures w <= |Decimal(first + k * step)| {
      assert |Decimal(Magnitude(first))| == w;
    }
  }

  /** The exception is real: zero deleted from -200, -100, 0, 100, 200, 300 comes back as three digits. */
  lemma SignedColumnIsOverPadded()
    ensures Recovers(Render([-200, -100, 100, 200, 300], Template("", ""), None), "000")
  {
    var t, numbers := Template("", ""), [-200, -100, 100, 200, 300];
    hide Recovers, Without, ParsedColumn, Render;
    SignedColumnTerms();
    DeletedNumberIsRecovered(t, -200, 100, 6, 2, None, numbers, Render(numbers, t, None));
    ThreeDigits();
    assert AllOfWidth(numbers, 3);
    SoleWidthOfPlain(numbers, t);
    assert Format(t, 0, Some(3)) == "000" by {
      assert Decimal(0) == "0";
      assert Zeros(2) == "00";
    }
  }

  lemma SignedColumnTerms()
    ensures Without(-200, 100, 6, 2) == [-200, -100, 100, 200, 300]
  {
    assert Terms(-100, 100, 1) == [-100] + Terms(0, 100, 0);
    assert Terms(-200, 100, 2) == [-200, -100];
    assert Terms(300, 100, 1) == [300] + Terms(400, 100, 0);
    assert Terms(200, 100, 2) == [200, 300];
    assert Terms(100, 100, 3) == [100, 200, 300];
  }

  lemma ThreeDigits()
    ensures |Decimal(100)| == 3 && |Decimal(200)| == 3 && |Decimal(300)| == 3
  {
    assert |Decimal(10)| == 2 && |Decimal(20)| == 2 && |Decimal(30)| == 2;
  }

  // --- duplicates -----------------------------------------------------------------------

  ghost predicate MissesASlot(numbers: seq<int>, g: Grid)
    requires g.step > 0
  {
    exists x :: IsSlot(g, x) && x !in numbers
  }

  ghost predicate HasRepeat(numbers: seq<int>) {
    exists x :: Count(numbers, x) > 1
  }

  /**
    When a proposal is made, the column misses one slot or repeats one value once. It is a gap exactly if a slot is
    missing. The comment's "XOR" fails exactly if there is a repeat too.
  */
  lemma GapDecidesIff(numbers: seq<int>)
    requires Propose(numbers).Proposed?
    ensures var p := Propose(numbers);
      && p.grid.step > 0 && p.grid.gapCount <= 1 && p.grid.duplicateCount <= 1
      && (p.grid.gapCount == 1 <==> MissesASlot(numbers, p.grid))
      && (p.grid.duplicateCount == 1 <==> HasRepeat(numbers))
      && (MissesASlot(numbers, p.grid) || HasRepeat(numbers))
      && (p.strategy == SequenceGap <==> MissesASlot(numbers, p.grid))
      && ((p.grid.gapCount == 1) == (p.grid.duplicateCount == 1) <==>
            MissesASlot(numbers, p.grid) && HasRepeat(numbers))
  {
    var unique, g := SortUnique(numbers), Propose(numbers).grid;
    ProposedGrid(numbers);
    ProposalIsReadOff(numbers);
    ProposalCounts(numbers);
    SlotsAreGrid(g);
    hide Propose, Slots, IsSlot, Count, Measure, Excess;
    ExcessPositiveIff(unique, numbers);
    MissesIffAbsent(Slots(g), unique);
    RepeatsAreListed(numbers, unique);
  }

  lemma ProposalCounts(numbers: seq<int>)
    requires Propose(numbers).Proposed?
    ensures var p := Propose(numbers);
      && p.grid.duplicateCount <= 1 && p.grid.gapCount + p.grid.duplicateCount >= 1
      && (p.strategy == SequenceGap <==> p.grid.gapCount == 1)
      && |SortUnique(numbers)| >= 2 && p.grid.duplicateCount == Excess(SortUnique(numbers), numbers)
  {
    hide SortUnique, Absent, TooWide, Slots, Excess;
  }

  lemma MissesIffAbsent(slots: seq<int>, unique: seq<int>)
    ensures |Absent(slots, unique)| > 0 <==> exists x :: x in slots && x !in unique
  {
    var gaps := Absent(slots, unique);
    if gaps != [] {
      var x := gaps[0];
      assert x in gaps;
      assert x in slots && x !in unique;
    }
  }

  lemma RepeatsAreListed(numbers: seq<int>, unique: seq<int>)
    requires forall x :: x in unique <==> x in numbers
    ensures HasRepeat(numbers) <==> exists x :: x in unique && Count(numbers, x) > 1
  {
    forall x | Count(numbers, x) > 1 ensures x in numbers { CountIsMultiplicity(numbers, x); }
  }

  /** The grid of a column with one value twice differs only in its count of duplicates. */
  lemma MeasureWithRepeat(unique: seq<int>, x: int, numbers: seq<int>)
    requires Increasing(unique) && |unique| >= 2 && x in unique && multiset(numbers) == multiset(unique + [x])
    ensures SortUnique(numbers) == unique && SortUnique(unique) == unique && forall y :: y in unique ==> y in numbers
    ensures Measure(unique, numbers) == Measure(unique, unique).(duplicateCount := 1)
    ensures Measure(unique, unique).duplicateCount == 0
  {
    OneRepeat(unique, x, numbers);
    IncreasingUnique(SortUnique(unique), unique);
    ExcessZero(unique, unique);
    hide SortUnique, Excess, Diffs, Absent, Range, Increasing;
  }

  /** One gap decides the strategy, whichever value occurs twice: gap and duplicate together give the gap. */
  lemma OneGapDecides(unique: seq<int>, x: int, numbers: seq<int>)
    requires Increasing(unique) && x in unique && multiset(numbers) == multiset(unique + [x])
    requires Propose(unique).Proposed? && Propose(unique).strategy == SequenceGap
    ensures Propose(numbers).Proposed? && Propose(numbers).strategy == SequenceGap
    ensures Propose(numbers).number == Propose(unique).number
  {
    IncreasingUnique(SortUnique(unique), unique);
    hide SortUnique, Measure, Absent, TooWide, Slots, Increasing;
    assert |unique| >= 2;
    MeasureWithRepeat(unique, x, numbers);
    hide Range;
    SameSlots(Measure(unique, unique), Measure(unique, numbers));
  }

  lemma SameSlots(a: Grid, b: Grid)
    requires a.step > 0 && b == a.(duplicateCount := b.duplicateCount)
    ensures Slots(a) == Slots(b)
  {
  }

  /** An example: 4 is missing and 6 occurs twice. */
  lemma GapBesideDuplicate()
    ensures Propose([1, 2, 3, 5, 6, 6]).Proposed? && Propose([1, 2, 3, 5, 6, 6]).strategy == SequenceGap
    ensures Propose([1, 2, 3, 5, 6, 6]).number == 4
  {
    var unique := [1, 2, 3, 5, 6];
    hide Propose, Without, Terms;
    WithoutFour();
    ProposeWithout(1, 1, 6, 3, unique);
    assert Increasing(unique) && unique[4] == 6 && 6 in unique;
    assert [1, 2, 3, 5, 6, 6] == unique + [6];
    OneGapDecides(unique, 6, [1, 2, 3, 5, 6, 6]);
  }

  lemma WithoutFour()
    ensures Without(1, 1, 6, 3) == [1, 2, 3, 5, 6]
  {
    assert Terms(6, 1, 1) == [6] + Terms(7, 1, 0);
    assert Terms(5, 1, 2) == [5, 6];
    assert Without(3, 1, 4, 1) == [3] + Without(4, 1, 3, 0);
    assert Without(2, 1, 5, 2) == [2] + Without(3, 1, 4, 1);
  }

  /** A full progression with one term twice proposes the next value. */
  lemma ProposeNext(first: int, step: int, n: nat, x: int, numbers: seq<int>)
    requires step >= 1 && 4 <= n <= MAX_EXPECTED_RANGE_SLOTS && x in Terms(first, step, n)
    requires multiset(numbers) == multiset(Terms(first, step, n) + [x])
    ensures |numbers| == n + 1
    ensures Propose(numbers).Proposed? && Propose(numbers).strategy == SequenceNextValue
    ensures Propose(numbers).number == first + n * step
  {
    var unique := Terms(first, step, n);
    hide Terms, SortUnique, Measure, Absent, TooWide, Range, Increasing, Propose;
    TermsIncrease(first, step, n);
    SameMembers(numbers, unique + [x]);
    MeasureWithRepeat(unique, x, numbers);
    MeasureTerms(first, step, n);
    var g := Measure(unique, numbers);
    SpanFits(g.minValue, g.maxValue, step, n);
    NextProposed(numbers, unique, g);
  }

  lemma NextProposed(numbers: seq<int>, unique: seq<int>, g: Grid)
    requires SortUnique(numbers) == unique && |unique| >= 2 && g == Measure(unique, numbers) && g.step > 0
    requires g.gapCount == 0 && g.duplicateCount == 1 && g.contradicting == 0
    requires g.supporting >= MIN_SUPPORTING_TRANSITIONS
    requires !TooWide(g.minValue, g.maxValue, g.step) && g.maxValue + g.step !in unique
    ensures Propose(numbers) == Proposed(SequenceNextValue, g, g.maxValue + g.step)
  {
    hide SortUnique, Measure, Absent, TooWide, Slots;
  }

  lemma MeasureTerms(first: int, step: int, n: nat)
    requires step >= 1 && n >= 4
    ensures Increasing(Terms(first, step, n)) && first + n * step !in Terms(first, step, n)
    ensures var g := Measure(Terms(first, step, n), Terms(first, step, n));
      && g.step == step && g.minValue == first && g.maxValue + step == first + n * step
      && g.gapCount == 0 && g.supporting == n - 1 && g.contradicting == 0
  {
    var unique := Terms(first, step, n);
    hide Terms, Diffs, Mode, Count, Absent, Range, Repeat, Excess;
    TermsIncrease(first, step, n);
    TermAt(first, step, n, 0);
    TermAt(first, step, n, n - 1);
    StepOver(n - 1, step);
    TermsDiffs(first, step, n);
    RepeatMode(step, n - 1);
    RangeIsTerms(first, step, n);
    AbsentNone(unique, unique);
  }

  /** The engine reports a next-value candidate with this text. */
  ghost predicate Continues(observed: seq<Option<string>>, text: string) {
    var r := Discover(observed);
    && r.status == Candidate && r.best.Some?
    && r.best.value.strategy == SequenceNextValue && r.best.value.candidateValue == text
  }

  /**
    A full progression with one term twice, in any order: the next value comes back, written with the width the
    members share.
  */
  lemma DuplicateGivesNextValue(t: Template, first: int, step: int, n: nat, x: int, width: Option<nat>,
                                numbers: seq<int>, observed: seq<Option<string>>)
    requires WellFormed(t) && step >= 1 && 4 <= n <= MAX_EXPECTED_RANGE_SLOTS && x in Terms(first, step, n)
    requires multiset(numbers) == multiset(Terms(first, step, n) + [x])
    requires multiset(observed) == multiset(Render(numbers, t, width))
    ensures Continues(observed, Format(t, first + n * step, SoleWidth(ParsedColumn(numbers, t, width))))
  {
    hide Discover, Propose, Terms, Render, ParsedColumn, WellFormed, Format, SoleWidth;
    ProposeNext(first, step, n, x, numbers);
    ColumnContinues(numbers, t, width);
    OrderIndependence(observed, Render(numbers, t, width));
  }

  lemma ColumnContinues(numbers: seq<int>, t: Template, width: Option<nat>)
    requires WellFormed(t) && |numbers| >= MIN_OBSERVATIONS
    requires Propose(numbers).Proposed? && Propose(numbers).strategy == SequenceNextValue
    ensures Continues(Render(numbers, t, width),
                      Format(t, Propose(numbers).number, SoleWidth(ParsedColumn(numbers, t, width))))
  {
    hide Discover, Propose, Render, ParsedColumn, WellFormed, Format, SoleWidth, Dominant, FilterMap;
    ColumnIsDominated(numbers, t, width);
    ColumnNumbers(numbers, t, width);
    DiscoverDescribes(Render(numbers, t, width), Group(t, ParsedColumn(numbers, t, width)), numbers);
  }

  /** Zero-padded to a width that fits every term, the next value is padded to it too. */
  lemma PaddedNextValue(t: Template, first: int, step: int, n: nat, x: int, width: nat, observed: seq<Option<string>>)
    requires WellFormed(t) && step >= 1 && 4 <= n <= MAX_EXPECTED_RANGE_SLOTS && x in Terms(first, step, n)
    requires forall y :: y in Terms(first, step, n) ==> |Decimal(Magnitude(y))| <= width
    requires multiset(observed) == multiset(Render(Terms(first, step, n) + [x], t, Some(width)))
    ensures Continues(observed, Format(t, first + n * step, Some(width)))
  {
    hide Discover, Propose, Terms, Render, WellFormed, Decimal, Format;
    var numbers := Terms(first, step, n) + [x];
    PaddedColumnWidth(numbers, t, width);
    DuplicateGivesNextValue(t, first, step, n, x, Some(width), numbers, observed);
  }

  /**
    In plain decimal the next value's own text comes back exactly when the members do not all share a width that is
    greater than the next value's.
  */
  lemma PlainNextValue(t: Template, first: int, step: int, n: nat, x: int, observed: seq<Option<string>>)
    requires WellFormed(t) && step >= 1 && 4 <= n <= MAX_EXPECTED_RANGE_SLOTS && x in Terms(first, step, n)
    requires multiset(observed) == multiset(Render(Terms(first, step, n) + [x], t, None))
    ensures var next := first + n * step;
      Continues(observed, Format(t, next, None)) <==>
        !(exists w: nat :: w > |Decimal(Magnitude(next))| && AllOfWidth(Terms(first, step, n), w))
  {
    hide Discover, Propose, Terms, Render, WellFormed, Decimal, Format, ParsedColumn, SoleWidth;
    var terms, next := Terms(first, step, n), first + n * step;
    var numbers := terms + [x];
    DuplicateGivesNextValue(t, first, step, n, x, None, numbers, observed);
    SoleWidthOfPlain(numbers, t);
    FormatWidths(t, next, SoleWidth(ParsedColumn(numbers, t, None)));
    assert forall y :: y in numbers <==> y in terms;
    assert forall w: nat :: AllOfWidth(numbers, w) <==> AllOfWidth(terms, w);
  }

  /** For non-negative terms it always does. */
  lemma NonNegativeNextValue(t: Template, first: nat, step: int, n: nat, x: int, observed: seq<Option<string>>)
    requires WellFormed(t) && step >= 1 && 4 <= n <= MAX_EXPECTED_RANGE_SLOTS && x in Terms(first, step, n)
    requires multiset(observed) == multiset(Render(Terms(first, step, n) + [x], t, None))
    ensures Continues(observed, Format(t, first + n * step, None))
  {
    hide Continues, Terms, Render, WellFormed, Decimal, Format;
    PlainNextValue(t, first, step, n, x, observed);
    TermAt(first, step, n, 0);
    assert Terms(first, step, n)[0] == first && first in Terms(first, step, n);
    MulLe(0, n, step);
    DecimalLengthMonotone(first, first + n * step);
    forall w: nat | AllOfWidth(Terms(first, step, n), w) ensures w <= |Decimal(first + n * step)| {
      assert |Decimal(Magnitude(first))| == w;
    }
  }
}
