/** Ranking the candidates of several strategies, and declining when the best of them disagree. */
module CandidateAggregation {
  import opened Collections
  import opened Text

  const MARGIN: real := 0.03

  /** What `float(text)` gives; the parser itself is a parameter, None standing for its ValueError. */
  datatype Number = Finite(value: real) | PosInf | NegInf | NaN

  datatype RawCandidate = Raw(value: string, strategy: string, confidence: real, supporting: nat, contradicting: nat)

  /** The constructor refuses empty texts and confidences outside [0, 1]. */
  type Candidate = c: RawCandidate | c.value != "" && c.strategy != "" && 0.0 <= c.confidence <= 1.0
    witness Raw("0", "S", 0.0, 0, 0)

  datatype Aggregation = Aggregation(candidates: seq<Candidate>, recommended: Option<Candidate>, ambiguous: bool,
                                     strategies: seq<string>)

  // --- order and equality ------------------------------------------------------------

  /** The sort key's order: higher confidence first, then strategy, then value. */
  predicate Before(a: RawCandidate, b: RawCandidate) {
    || a.confidence > b.confidence
    || (a.confidence == b.confidence
        && (Less(a.strategy, b.strategy) || (a.strategy == b.strategy && Less(a.value, b.value))))
  }

  predicate SameKey(a: RawCandidate, b: RawCandidate) {
    a.confidence == b.confidence && a.strategy == b.strategy && a.value == b.value
  }

  lemma BeforeIsTotal(a: RawCandidate, b: RawCandidate)
    ensures Before(a, b) || Before(b, a) || SameKey(a, b)
    ensures !(Before(a, b) && Before(b, a)) && !(SameKey(a, b) && Before(a, b))
  {
    LessIsTotal(a.strategy, b.strategy);
    LessIsTotal(a.value, b.value);
  }

  lemma BeforeIsTransitive(a: RawCandidate, b: RawCandidate, c: RawCandidate)
    requires !Before(b, a) && !Before(c, b)
    ensures !Before(c, a)
  {
    BeforeIsTotal(a, b);
    BeforeIsTotal(b, c);
    BeforeIsTotal(a, c);
    if Less(a.strategy, b.strategy) && Less(b.strategy, c.strategy) {
      LessIsTransitive(a.strategy, b.strategy, c.strategy);
    }
    if Less(a.value, b.value) && Less(b.value, c.value) { LessIsTransitive(a.value, b.value, c.value); }
    LessIsTotal(a.strategy, c.strategy);
    LessIsTotal(a.value, c.value);
  }

  predicate NumbersEqual(a: Number, b: Number) {
    !a.NaN? && a == b
  }

  /** `_values_equal` */
  predicate ValuesEqual(a: string, b: string, parse: string -> Option<Number>) {
    a == b || (parse(a).Some? && parse(b).Some? && NumbersEqual(parse(a).value, parse(b).value))
  }

  lemma ValuesEqualIsAnEquivalence(a: string, b: string, c: string, parse: string -> Option<Number>)
    ensures ValuesEqual(a, a, parse)
    ensures ValuesEqual(a, b, parse) ==> ValuesEqual(b, a, parse)
    ensures ValuesEqual(a, b, parse) && ValuesEqual(b, c, parse) ==> ValuesEqual(a, c, parse)
  {
  }

  // --- the aggregator -------------------------------------------------------------------

  function InsertRanked(c: Candidate, s: seq<Candidate>): seq<Candidate> {
    if s == [] || !Before(s[0], c) then [c] + s else [s[0]] + InsertRanked(c, s[1..])
  }

  /** `sorted(candidates, key=(-confidence, strategy, value))` */
  function Ranked(s: seq<Candidate>): seq<Candidate> {
    if s == [] then [] else InsertRanked(s[0], Ranked(s[1..]))
  }

  predicate IsNear(c: Candidate, top: Candidate) { top.confidence - c.confidence <= MARGIN }

  predicate Competes(top: Candidate, c: Candidate, parse: string -> Option<Number>) {
    IsNear(c, top) && !ValuesEqual(c.value, top.value, parse)
  }

  /** `dict.fromkeys(strategies)` */
  function FirstSeen(names: seq<string>): seq<string> {
    if names == [] then []
    else
      var last := names[|names| - 1];
      var before := FirstSeen(names[..|names| - 1]);
      if last in before then before else before + [last]
  }

  function StrategyOf(c: Candidate): Option<string> { Some(c.strategy) }

  /** `aggregate_candidates` */
  function Aggregate(candidates: seq<Candidate>, parse: string -> Option<Number>): Aggregation {
    var ordered, strategies := Ranked(candidates), FirstSeen(FilterMap(candidates, StrategyOf));
    if ordered == [] then Aggregation([], None, false, strategies)
    else if exists c :: c in ordered[1..] && Competes(ordered[0], c, parse) then
      Aggregation(ordered, None, true, strategies)
    else Aggregation(ordered, Some(ordered[0]), false, strategies)
  }

  // --- what the ranking means --------------------------------------------------------------

  ghost predicate InRankOrder(s: seq<Candidate>) {
    forall i, j :: 0 <= i < j < |s| ==> !Before(s[j], s[i])
  }

  lemma {:induction false} InsertKeepsRank(c: Candidate, s: seq<Candidate>)
    requires InRankOrder(s)
    ensures multiset(InsertRanked(c, s)) == multiset([c]) + multiset(s) && InRankOrder(InsertRanked(c, s))
  {
    hide Before;
    if s == [] || !Before(s[0], c) {
      var r := [c] + s;
      assert multiset(r) == multiset([c]) + multiset(s);
      forall i, j | 0 <= i < j < |r| ensures !Before(r[j], r[i]) {
        if i == 0 && j > 1 { BeforeIsTransitive(c, s[0], s[j - 1]); }
      }
    } else {
      InsertKeepsRank(c, s[1..]);
      var rest := InsertRanked(c, s[1..]);
      assert s == [s[0]] + s[1..];
      BeforeIsTotal(s[0], c);
      forall j | 0 <= j < |rest| ensures !Before(rest[j], s[0]) {
        assert rest[j] in multiset(rest);
        assert rest[j] == c || rest[j] in s[1..];
      }
    }
  }

  lemma {:induction false} RankedIsASort(s: seq<Candidate>)
    ensures multiset(Ranked(s)) == multiset(s) && InRankOrder(Ranked(s))
  {
    if s != [] {
      RankedIsASort(s[1..]);
      InsertKeepsRank(s[0], Ranked(s[1..]));
      assert s == [s[0]] + s[1..];
    }
  }

  /** Nothing ranks before the top. */
  ghost predicate IsTop(top: Candidate, candidates: seq<Candidate>) {
    top in candidates && forall c :: c in candidates ==> !Before(c, top)
  }

  lemma TopIsFirst(candidates: seq<Candidate>)
    requires candidates != []
    ensures Ranked(candidates) != [] && IsTop(Ranked(candidates)[0], candidates)
    ensures forall c :: c in candidates <==> c in Ranked(candidates)
  {
    RankedIsASort(candidates);
    SameMembers(candidates, Ranked(candidates));
    var ordered := Ranked(candidates);
    BeforeIsTotal(ordered[0], ordered[0]);
    forall c | c in candidates ensures !Before(c, ordered[0]) {
      var i :| 0 <= i < |ordered| && ordered[i] == c;
    }
  }

  /**
    Both outcomes exactly: the aggregation is ambiguous iff some candidate within the margin of a top one proposes
    another value; otherwise it recommends a top candidate, and everything within the margin proposes the same value.
  */
  lemma AggregationIsExact(candidates: seq<Candidate>, parse: string -> Option<Number>, top: Candidate)
    requires IsTop(top, candidates)
    ensures var r := Aggregate(candidates, parse);
      && (r.ambiguous <==> exists c :: c in candidates && Competes(top, c, parse))
      && (r.recommended.Some? <==> !r.ambiguous)
      && multiset(r.candidates) == multiset(candidates)
      && (r.recommended.Some? ==> SameKey(r.recommended.value, top) && r.recommended.value in candidates)
  {
    hide Before, Ranked, ValuesEqual, FirstSeen;
    TopIsFirst(candidates);
    RankedIsASort(candidates);
    var ordered := Ranked(candidates);
    BeforeIsTotal(top, ordered[0]);
    CompetitorsFollow(candidates, ordered, parse);
    forall c ensures Competes(top, c, parse) <==> Competes(ordered[0], c, parse) { }
    hide Competes;
  }

  /** The top never competes with itself. */
  lemma CompetitorsFollow(candidates: seq<Candidate>, ordered: seq<Candidate>, parse: string -> Option<Number>)
    requires ordered != [] && forall c :: c in candidates <==> c in ordered
    ensures (exists c :: c in ordered[1..] && Competes(ordered[0], c, parse))
       <==> exists c :: c in candidates && Competes(ordered[0], c, parse)
  {
    assert ordered == [ordered[0]] + ordered[1..];
    if c :| c in candidates && Competes(ordered[0], c, parse) {
      assert c != ordered[0];
      assert c in ordered[1..];
    }
  }

  /** The recommended value has the greatest confidence, and all candidates within the margin agree on it pairwise. */
  lemma RecommendedIsUndisputed(candidates: seq<Candidate>, parse: string -> Option<Number>)
    requires Aggregate(candidates, parse).recommended.Some?
    ensures var top := Aggregate(candidates, parse).recommended.value;
      && top in candidates
      && (forall c :: c in candidates ==> c.confidence <= top.confidence)
      && forall c, d :: c in candidates && d in candidates && IsNear(c, top) && IsNear(d, top) ==>
           ValuesEqual(c.value, d.value, parse)
  {
    TopIsFirst(candidates);
    var top := Aggregate(candidates, parse).recommended.value;
    AggregationIsExact(candidates, parse, top);
    forall c | c in candidates ensures c.confidence <= top.confidence { assert !Before(c, top); }
    hide Aggregate, Ranked, Before, ValuesEqual;
    forall c, d | c in candidates && d in candidates && IsNear(c, top) && IsNear(d, top)
      ensures ValuesEqual(c.value, d.value, parse)
    {
      assert !Competes(top, c, parse) && !Competes(top, d, parse);
      ValuesEqualIsAnEquivalence(d.value, top.value, c.value, parse);
      ValuesEqualIsAnEquivalence(c.value, top.value, d.value, parse);
    }
  }

  /** The order in which strategies report changes neither the ambiguity flag nor what is recommended. */
  lemma OrderIndependence(xs: seq<Candidate>, ys: seq<Candidate>, parse: string -> Option<Number>)
    requires multiset(xs) == multiset(ys)
    ensures var a, b := Aggregate(xs, parse), Aggregate(ys, parse);
      && a.ambiguous == b.ambiguous && (a.recommended.Some? <==> b.recommended.Some?)
      && (a.recommended.Some? ==> SameKey(a.recommended.value, b.recommended.value))
  {
    SameMembers(xs, ys);
    if xs != [] {
      TopIsFirst(xs);
      var top := Ranked(xs)[0];
      hide Aggregate, Ranked;
      AggregationIsExact(xs, parse, top);
      AggregationIsExact(ys, parse, top);
    }
  }

  // --- the aggregation spelled out -----------------------------------------------------------

  /** Both texts are read as one number, which is not NaN. */
  ghost predicate AreOneNumber(a: string, b: string, parse: string -> Option<Number>) {
    match (parse(a), parse(b))
    case (Some(Finite(x)), Some(Finite(y))) => x == y
    case (Some(PosInf), Some(PosInf)) => true
    case (Some(NegInf), Some(NegInf)) => true
    case _ => false
  }

  lemma ValuesEqualIff(a: string, b: string, parse: string -> Option<Number>)
    ensures ValuesEqual(a, b, parse) <==> a == b || AreOneNumber(a, b, parse)
  {
  }

  /** Two numerals of one number agree. */
  lemma NumeralsAgree(parse: string -> Option<Number>)
    requires parse("735") == Some(Finite(735.0)) && parse("735.0") == Some(Finite(735.0))
    ensures "735" != "735.0" && ValuesEqual("735", "735.0", parse)
  {
    assert |"735"| != |"735.0"|;
  }

  /** More confident, or by an earlier strategy, or with an earlier value. */
  ghost predicate IsAhead(a: RawCandidate, b: RawCandidate) {
    || a.confidence > b.confidence
    || (a.confidence == b.confidence && exists k :: IsLessAt(a.strategy, b.strategy, k))
    || (a.confidence == b.confidence && a.strategy == b.strategy && exists k :: IsLessAt(a.value, b.value, k))
  }

  lemma BeforeIffAhead(a: RawCandidate, b: RawCandidate)
    ensures Before(a, b) <==> IsAhead(a, b)
  {
    LessIffFirstDifference(a.strategy, b.strategy);
    LessIffFirstDifference(a.value, b.value);
    hide IsLessAt;
  }

  /** A candidate whose confidence is at most three hundredths less, with another value. */
  ghost predicate IsRival(c: Candidate, top: Candidate, parse: string -> Option<Number>) {
    c.confidence >= top.confidence - 0.03 && c.value != top.value && !AreOneNumber(c.value, top.value, parse)
  }

  ghost predicate IsLeader(top: Candidate, candidates: seq<Candidate>) {
    top in candidates && forall c :: c in candidates ==> !IsAhead(c, top)
  }

  /** Without candidates nothing is recommended; otherwise the leader is, unless it has a rival. */
  lemma LeaderWithoutRivalIsRecommended(candidates: seq<Candidate>, parse: string -> Option<Number>)
    ensures var r := Aggregate(candidates, parse);
      && (candidates == [] ==> !r.ambiguous && r.recommended == None && r.candidates == [])
      && (forall top :: IsLeader(top, candidates) ==>
            && (r.ambiguous <==> exists c :: c in candidates && IsRival(c, top, parse))
            && (r.recommended.Some? <==> !r.ambiguous))
      && (r.recommended.Some? ==> IsLeader(r.recommended.value, candidates))
      && (candidates != [] ==> exists top :: IsLeader(top, candidates))
  {
    forall a: Candidate, b: Candidate ensures Before(a, b) <==> IsAhead(a, b) { BeforeIffAhead(a, b); }
    forall top: Candidate, c: Candidate ensures Competes(top, c, parse) <==> IsRival(c, top, parse) {
      ValuesEqualIff(c.value, top.value, parse);
    }
    hide Before, IsAhead, Competes, IsRival;
    forall top | IsLeader(top, candidates)
      ensures Aggregate(candidates, parse).ambiguous <==> exists c :: c in candidates && IsRival(c, top, parse)
      ensures Aggregate(candidates, parse).recommended.Some? <==> !Aggregate(candidates, parse).ambiguous
    {
      AggregationIsExact(candidates, parse, top);
    }
    if candidates != [] {
      TopIsFirst(candidates);
      assert IsLeader(Ranked(candidates)[0], candidates);
    }
  }

  /** The first candidate of this strategy. */
  ghost predicate IsFirstOf(candidates: seq<Candidate>, i: int, strategy: string) {
    && 0 <= i < |candidates| && candidates[i].strategy == strategy
    && forall j :: 0 <= j < i ==> candidates[j].strategy != strategy
  }

  /** Every strategy is listed once, in the order in which they report first. */
  lemma StrategiesAreListed(candidates: seq<Candidate>, parse: string -> Option<Number>)
    ensures AreListed(candidates, Aggregate(candidates, parse).strategies)
  {
    SeenAreListed(candidates);
    hide AreListed, FirstSeen, FilterMap, Ranked, Competes;
    NothingRanked(candidates);
  }

  lemma NothingRanked(candidates: seq<Candidate>)
    ensures Ranked(candidates) == [] <==> candidates == []
  {
    RankedIsASort(candidates);
    assert |multiset(Ranked(candidates))| == |multiset(candidates)|;
  }

  lemma {:induction false} SeenAreListed(candidates: seq<Candidate>)
    ensures AreListed(candidates, FirstSeen(FilterMap(candidates, StrategyOf)))
    decreases |candidates|
  {
    if candidates != [] {
      var n := |candidates| - 1;
      var before, last := candidates[..n], candidates[n];
      SeenAreListed(before);
      assert candidates == before + [last];
      FilterMapSnoc(before, last, StrategyOf);
      var names := FilterMap(before, StrategyOf);
      assert (names + [last.strategy])[..|names|] == names;
      hide FilterMap, FirstSeen, AreListed;
      assert FirstSeen(names + [last.strategy])
          == if last.strategy in FirstSeen(names) then FirstSeen(names) else FirstSeen(names) + [last.strategy] by {
        SeenOneMore(names, last.strategy);
      }
      ListedOneMore(before, last, FirstSeen(names));
    }
  }

  lemma SeenOneMore(names: seq<string>, name: string)
    ensures var seen := FirstSeen(names);
      FirstSeen(names + [name]) == if name in seen then seen else seen + [name]
  {
    assert (names + [name])[..|names|] == names;
  }

  ghost predicate Reports(candidates: seq<Candidate>, strategy: string) {
    exists i :: IsFirstOf(candidates, i, strategy)
  }

  ghost predicate AreListed(candidates: seq<Candidate>, names: seq<string>) {
    && (forall i :: 0 <= i < |candidates| ==> candidates[i].strategy in names)
    && (forall a :: 0 <= a < |names| ==> Reports(candidates, names[a]))
    && (forall a, b, i, j ::
          0 <= a < b < |names| && IsFirstOf(candidates, i, names[a]) && IsFirstOf(candidates, j, names[b]) ==> i < j)
  }

  lemma ListedOneMore(before: seq<Candidate>, last: Candidate, names: seq<string>)
    requires AreListed(before, names)
    ensures AreListed(before + [last], if last.strategy in names then names else names + [last.strategy])
  {
    var longer := if last.strategy in names then names else names + [last.strategy];
    var all := before + [last];
    forall i, name | name in names ensures IsFirstOf(all, i, name) <==> IsFirstOf(before, i, name) {
      FirstStaysFirst(before, last, i, name, names);
    }
    if last.strategy !in names { assert IsFirstOf(all, |before|, last.strategy); }
    forall i | 0 <= i < |all| ensures all[i].strategy in longer {
      if i < |before| { assert all[i] == before[i]; }
    }
    hide IsFirstOf;
    forall a | 0 <= a < |longer| ensures Reports(all, longer[a]) {
      if a < |names| {
        assert longer[a] == names[a] && Reports(before, names[a]);
        var i :| IsFirstOf(before, i, names[a]);
        assert IsFirstOf(all, i, longer[a]);
      } else {
        assert longer[a] == last.strategy;
      }
    }
    forall a, b, i, j | 0 <= a < b < |longer| && IsFirstOf(all, i, longer[a]) && IsFirstOf(all, j, longer[b])
      ensures i < j
    {
      assert longer[a] == names[a] && IsFirstOf(before, i, names[a]);
      if b == |names| { NewIsLast(before, last, i, j, names[a]); }
    }
  }

  lemma FirstStaysFirst(before: seq<Candidate>, last: Candidate, i: int, name: string, names: seq<string>)
    requires AreListed(before, names) && name in names
    ensures IsFirstOf(before + [last], i, name) <==> IsFirstOf(before, i, name)
  {
    var all := before + [last];
    var a :| 0 <= a < |names| && names[a] == name;
    var k :| IsFirstOf(before, k, names[a]);
    assert all[k] == before[k];
    if IsFirstOf(all, i, name) {
      assert i <= k;
      forall j | 0 <= j < i ensures before[j].strategy != name { assert all[j] == before[j]; }
    }
    if IsFirstOf(before, i, name) {
      forall j | 0 <= j < i ensures all[j].strategy != name { assert all[j] == before[j]; }
    }
  }

  lemma NewIsLast(before: seq<Candidate>, last: Candidate, i: int, j: int, name: string)
    requires IsFirstOf(before, i, name) && IsFirstOf(before + [last], j, last.strategy)
    requires forall k :: 0 <= k < |before| ==> before[k].strategy != last.strategy
    ensures i < j
  {
    assert forall k :: 0 <= k < |before| ==> (before + [last])[k] == before[k];
  }
}
