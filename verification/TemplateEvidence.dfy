/** The template engine: a case, a delimiter, a prefix and a suffix that turn every source into its target. */
module TemplateEvidence {
  import opened Collections
  import opened Text

  const MIN_OBSERVATIONS := 3
  const MIN_SUPPORTING_PAIRS := 3

  datatype Case = AsIs | Lower | Upper

  datatype Hypothesis = Hypothesis(letterCase: Case, delimiter: string, prefix: string, suffix: string)

  /** A row's source columns; a null is None. */
  type Source = seq<Option<string>>

  datatype Pair = Pair(source: Source, target: string)

  datatype Evidence = Evidence(hypothesis: Hypothesis, candidateValue: string, supporting: nat, confidence: real)

  datatype Result = Result(status: Status, pairCount: nat, best: Option<Evidence>)

  const CASES: set<Case> := {AsIs, Lower, Upper}
  const DELIMITERS: seq<string> := ["", ".", "_", "-", " "]

  // --- transforming a source -----------------------------------------------------

  predicate IsAlphanumeric(c: char) {
    'A' <= c <= 'Z' || 'a' <= c <= 'z' || '0' <= c <= '9'
  }

  /** `re.findall("[A-Za-z0-9]+", s)` */
  function Tokenize(s: string): (tokens: seq<string>)
    ensures forall t :: t in tokens ==> t != ""
    decreases |s|
  {
    if s == "" then []
    else
      var n := Run(s, IsAlphanumeric);
      if n == 0 then Tokenize(s[1..]) else [s[..n]] + Tokenize(s[n..])
  }

  function NonBlank(v: Option<string>): Option<string> {
    if v.Some? && Strip(v.value) != "" then Some(Strip(v.value)) else None
  }

  function Join(delimiter: string, parts: seq<string>): (s: string)
    ensures parts != [] && parts[0] != "" ==> s != ""
  {
    if parts == [] then ""
    else if |parts| == 1 then parts[0]
    else parts[0] + delimiter + Join(delimiter, parts[1..])
  }

  function Tokens(source: Source): (tokens: seq<string>)
    ensures forall t :: t in tokens ==> t != ""
  {
    Tokenize(Strip(Join(" ", FilterMap(source, NonBlank))))
  }

  function MapCase(c: Case, s: string): (r: string)
    ensures |r| == |s|
  {
    match c
    case AsIs => s
    case Lower => seq(|s|, i requires 0 <= i < |s| => if 'A' <= s[i] <= 'Z' then (s[i] as int + 32) as char else s[i])
    case Upper => UpperCase(s)
  }

  function MapCases(c: Case, tokens: seq<string>): (r: seq<string>)
    ensures |r| == |tokens| && forall i :: 0 <= i < |r| ==> r[i] == MapCase(c, tokens[i])
  {
    seq(|tokens|, i requires 0 <= i < |tokens| => MapCase(c, tokens[i]))
  }

  /** The tokens in one case, joined by one delimiter. */
  function Core(c: Case, delimiter: string, source: Source): (core: string)
    ensures core == "" <==> Tokens(source) == []
  {
    var tokens := Tokens(source);
    if tokens != [] then
      assert tokens[0] in tokens;
      Join(delimiter, MapCases(c, tokens))
    else Join(delimiter, MapCases(c, tokens))
  }

  /** `_apply_hypothesis` */
  function Apply(h: Hypothesis, source: Source): Option<string> {
    var core := Core(h.letterCase, h.delimiter, source);
    if core == "" then None else Some(h.prefix + core + h.suffix)
  }

  // --- the hypotheses one pair suggests --------------------------------------------

  predicate OccursAt(target: string, core: string, i: nat) {
    i + |core| <= |target| && target[i..i + |core|] == core
  }

  /** `target.find(core)`, None for -1 */
  function Find(target: string, core: string): (r: Option<nat>)
    ensures r.Some? ==> OccursAt(target, core, r.value)
    ensures forall i: nat :: OccursAt(target, core, i) ==> r.Some? && r.value <= i
  {
    FindFrom(target, core, 0)
  }

  function FindFrom(target: string, core: string, start: nat): (r: Option<nat>)
    ensures r.Some? ==> start <= r.value && OccursAt(target, core, r.value)
    ensures forall i: nat :: start <= i && OccursAt(target, core, i) ==> r.Some? && r.value <= i
    decreases |target| - start
  {
    if OccursAt(target, core, start) then Some(start)
    else if start >= |target| then None
    else FindFrom(target, core, start + 1)
  }

  function Around(c: Case, delimiter: string, pair: Pair, i: nat): (h: Hypothesis)
    requires OccursAt(pair.target, Core(c, delimiter, pair.source), i)
  {
    Hypothesis(c, delimiter, pair.target[..i], pair.target[i + |Core(c, delimiter, pair.source)|..])
  }

  /** h is what its own case and delimiter read off this pair's target. */
  predicate SuggestedBy(h: Hypothesis, pair: Pair) {
    var core := Core(h.letterCase, h.delimiter, pair.source);
    && h.letterCase in CASES && h.delimiter in DELIMITERS
    && core != ""
    && Find(pair.target, core).Some?
    && h == Around(h.letterCase, h.delimiter, pair, Find(pair.target, core).value)
  }

  /** `_hypotheses_matching_pair`: every case and delimiter is tried, at most fifteen hypotheses result. */
  method HypothesesMatchingPair(pair: Pair) returns (found: set<Hypothesis>)
    ensures forall h :: h in found <==> SuggestedBy(h, pair)
    ensures |found| <= 15
  {
    found := {};
    hide Core, Find, Tokens;
    if Tokens(pair.source) == [] { return; }
    var cases := [AsIs, Lower, Upper];
    for i := 0 to 3
      invariant |found| <= 5 * i
      invariant forall h :: h in found <==> SuggestedBy(h, pair) && h.letterCase in cases[..i]
    {
      var c := cases[i];
      assert cases[..i + 1] == cases[..i] + [c];
      for j := 0 to 5
        invariant |found| <= 5 * i + j
        invariant forall h :: h in found <==>
          SuggestedBy(h, pair) && (h.letterCase in cases[..i] || (h.letterCase == c && h.delimiter in DELIMITERS[..j]))
      {
        var d := DELIMITERS[j];
        assert DELIMITERS[..j + 1] == DELIMITERS[..j] + [d];
        var core := Core(c, d, pair.source);
        var at := Find(pair.target, core);
        if at.Some? {
          found := found + {Around(c, d, pair, at.value)};
        }
      }
      assert DELIMITERS[..5] == DELIMITERS;
    }
    assert cases[..3] == cases;
  }

  /**
    Round trip: a hypothesis read off a pair reproduces it, and one that reproduces it at the first occurrence is
    read off.
  */
  lemma SuggestedIffFirstOccurrence(h: Hypothesis, pair: Pair)
    requires h.letterCase in CASES && h.delimiter in DELIMITERS
    ensures SuggestedBy(h, pair) <==>
      && Apply(h, pair.source) == Some(pair.target)
      && Find(pair.target, Core(h.letterCase, h.delimiter, pair.source)) == Some(|h.prefix|)
  {
    var core, target := Core(h.letterCase, h.delimiter, pair.source), pair.target;
    if core != "" && Find(target, core).Some? {
      var i := Find(target, core).value;
      assert target == target[..i] + target[i..i + |core|] + target[i + |core|..];
      if h.prefix + core + h.suffix == target && i == |h.prefix| {
        assert target[..i] == h.prefix && target[i + |core|..] == h.suffix;
      }
    }
  }

  // --- scoring -----------------------------------------------------------------------

  predicate Reproduces(h: Hypothesis, pairs: seq<Pair>) {
    forall p :: p in pairs ==> Apply(h, p.source) == Some(p.target)
  }

  /** The scoring loop: how many pairs agree with h and how many do not. */
  method Score(h: Hypothesis, pairs: seq<Pair>) returns (supporting: nat, contradicting: nat)
    ensures supporting + contradicting == |pairs|
    ensures contradicting == 0 <==> Reproduces(h, pairs)
  {
    hide Apply;
    supporting, contradicting := 0, 0;
    for i := 0 to |pairs|
      invariant supporting + contradicting == i
      invariant contradicting == 0 <==> Reproduces(h, pairs[..i])
    {
      assert pairs[..i + 1] == pairs[..i] + [pairs[i]];
      if Apply(h, pairs[i].source) == Some(pairs[i].target) {
        supporting := supporting + 1;
      } else {
        assert pairs[i] in pairs[..i + 1];
        contradicting := contradicting + 1;
      }
    }
    assert pairs[..|pairs|] == pairs;
  }

  /** The version space: every suggested hypothesis that reproduces all pairs. */
  ghost predicate InVersionSpace(h: Hypothesis, pairs: seq<Pair>) {
    Reproduces(h, pairs) && exists p :: p in pairs && SuggestedBy(h, p)
  }

  // --- the order that picks one -------------------------------------------------------

  function CaseName(c: Case): string {
    match c case AsIs => "as_is" case Lower => "lower" case Upper => "upper"
  }

  /** Sort key (case name, delimiter, prefix, suffix), as support is the same for all that reproduce every pair. */
  predicate Before(h: Hypothesis, g: Hypothesis) {
    || Less(CaseName(h.letterCase), CaseName(g.letterCase))
    || (h.letterCase == g.letterCase &&
         (|| Less(h.delimiter, g.delimiter)
          || (h.delimiter == g.delimiter &&
               (Less(h.prefix, g.prefix) || (h.prefix == g.prefix && Less(h.suffix, g.suffix))))))
  }

  lemma BeforeIsTotal(h: Hypothesis, g: Hypothesis)
    ensures h == g || Before(h, g) || Before(g, h)
    ensures !(Before(h, g) && Before(g, h))
  {
    LessIsTotal(CaseName(h.letterCase), CaseName(g.letterCase));
    LessIsTotal(h.delimiter, g.delimiter);
    LessIsTotal(h.prefix, g.prefix);
    LessIsTotal(h.suffix, g.suffix);
    CaseNamesDiffer(h.letterCase, g.letterCase);
  }

  lemma CaseNamesDiffer(c: Case, d: Case)
    ensures CaseName(c) == CaseName(d) <==> c == d
  {
    assert CaseName(c)[0] == match c case AsIs => 'a' case Lower => 'l' case Upper => 'u';
    assert CaseName(d)[0] == match d case AsIs => 'a' case Lower => 'l' case Upper => 'u';
  }

  lemma BeforeIsTransitive(h: Hypothesis, g: Hypothesis, f: Hypothesis)
    requires Before(h, g) && Before(g, f)
    ensures Before(h, f)
  {
    hide Less;
    if Less(CaseName(h.letterCase), CaseName(g.letterCase)) && Less(CaseName(g.letterCase), CaseName(f.letterCase)) {
      LessIsTransitive(CaseName(h.letterCase), CaseName(g.letterCase), CaseName(f.letterCase));
    }
    if Less(h.delimiter, g.delimiter) && Less(g.delimiter, f.delimiter) {
      LessIsTransitive(h.delimiter, g.delimiter, f.delimiter);
    }
    if Less(h.prefix, g.prefix) && Less(g.prefix, f.prefix) {
      LessIsTransitive(h.prefix, g.prefix, f.prefix);
    }
    if Less(h.suffix, g.suffix) && Less(g.suffix, f.suffix) {
      LessIsTransitive(h.suffix, g.suffix, f.suffix);
    }
  }

  ghost predicate IsLeast(h: Hypothesis, s: set<Hypothesis>) {
    h in s && forall g :: g in s ==> g == h || Before(h, g)
  }

  lemma LeastExists(s: set<Hypothesis>)
    requires s != {}
    ensures exists h :: IsLeast(h, s)
  {
    hide Before;
    var h :| h in s;
    var rest := s - {h};
    if rest == {} {
      assert forall g :: g in s ==> g == h || g in rest;
      assert IsLeast(h, s);
    } else {
      LeastExists(rest);
      var m :| IsLeast(m, rest);
      BeforeIsTotal(h, m);
      if Before(h, m) {
        forall g | g in s ensures g == h || Before(h, g) {
          if g != h && g != m { BeforeIsTransitive(h, m, g); }
        }
        assert IsLeast(h, s);
      } else {
        assert IsLeast(m, s);
      }
    }
  }

  lemma LeastIsUnique(h: Hypothesis, g: Hypothesis, s: set<Hypothesis>)
    requires IsLeast(h, s) && IsLeast(g, s)
    ensures h == g
  {
    BeforeIsTotal(h, g);
  }

  // --- the engine ------------------------------------------------------------------------

  function Usable(raw: (Source, Option<string>)): Option<Pair> {
    if raw.1.Some? && Strip(raw.1.value) != "" && Tokens(raw.0) != [] then Some(Pair(raw.0, raw.1.value)) else None
  }

  ghost function Suggestions(pairs: seq<Pair>): (s: set<Hypothesis>)
    ensures forall h :: h in s <==> exists p :: p in pairs && SuggestedBy(h, p)
  {
    var s := set c, d, p | c in CASES && d in DELIMITERS && p in pairs
                        && Core(c, d, p.source) != "" && Find(p.target, Core(c, d, p.source)).Some?
                      :: Around(c, d, p, Find(p.target, Core(c, d, p.source)).value);
    assert forall h, p :: p in pairs && SuggestedBy(h, p) ==>
      h == Around(h.letterCase, h.delimiter, p, Find(p.target, Core(h.letterCase, h.delimiter, p.source)).value);
    s
  }

  ghost function VersionSpace(pairs: seq<Pair>): (s: set<Hypothesis>)
    ensures forall h :: h in s <==> InVersionSpace(h, pairs)
  {
    set h | h in Suggestions(pairs) && Reproduces(h, pairs)
  }

  function Confidence(n: nat): (c: real)
    ensures 0.0 <= c <= 1.0
  {
    var c := n as real / (2 * MIN_SUPPORTING_PAIRS) as real;
    if c <= 1.0 then c else 1.0
  }

  /** `discover_template_evidence` */
  ghost function Discover(raw: seq<(Source, Option<string>)>, query: Source): (r: Result) {
    var pairs := FilterMap(raw, Usable);
    var n, space := |pairs|, VersionSpace(pairs);
    if n < MIN_OBSERVATIONS then Result(InsufficientGroup, n, None)
    else if Suggestions(pairs) == {} then Result(NoRelationship, n, None)
    else if space == {} || n < MIN_SUPPORTING_PAIRS then Result(Ambiguous, n, None)
    else if Tokens(query) == [] then Result(NoRelationship, n, None)
    else
      LeastExists(space);
      var top :| IsLeast(top, space);
      if exists h :: h in space && Apply(h, query) != Apply(top, query) then Result(Ambiguous, n, None)
      else Result(Candidate, n, Some(Evidence(top, Apply(top, query).value, n, Confidence(n))))
  }

  /** The union of what the pairs suggest. */
  method GatherSuggestions(pairs: seq<Pair>) returns (candidates: set<Hypothesis>)
    ensures candidates == Suggestions(pairs)
  {
    candidates := {};
    for i := 0 to |pairs|
      invariant forall h :: h in candidates <==> exists p :: p in pairs[..i] && SuggestedBy(h, p)
    {
      assert pairs[..i + 1] == pairs[..i] + [pairs[i]];
      var found := HypothesesMatchingPair(pairs[i]);
      candidates := candidates + found;
    }
    assert pairs[..|pairs|] == pairs;
  }

  /** Scores every candidate, in whatever order the set yields them, and keeps those never contradicted. */
  method KeepPerfect(candidates: set<Hypothesis>, pairs: seq<Pair>) returns (perfect: set<Hypothesis>)
    ensures perfect == set h | h in candidates && Reproduces(h, pairs)
  {
    var rest := candidates;
    perfect := {};
    while rest != {}
      invariant rest <= candidates
      invariant perfect == set h | h in candidates - rest && Reproduces(h, pairs)
    {
      var h :| h in rest;
      rest := rest - {h};
      var supporting, contradicting := Score(h, pairs);
      if contradicting == 0 { perfect := perfect + {h}; }
    }
  }

  /** The first of the sorted list. */
  method PickFirst(perfect: set<Hypothesis>) returns (top: Hypothesis)
    requires perfect != {}
    ensures IsLeast(top, perfect)
  {
    hide Before;
    top :| top in perfect;
    var rest := perfect - {top};
    while rest != {}
      invariant rest <= perfect && top in perfect - rest
      invariant forall g :: g in perfect - rest ==> g == top || Before(top, g)
    {
      var h :| h in rest;
      rest := rest - {h};
      BeforeIsTotal(h, top);
      if Before(h, top) {
        forall g | g in perfect - rest ensures g == h || Before(h, g) {
          if g != h && g != top { BeforeIsTransitive(h, top, g); }
        }
        top := h;
      }
    }
  }

  method DiscoverTemplateEvidence(raw: seq<(Source, Option<string>)>, query: Source) returns (r: Result)
    ensures r == Discover(raw, query)
  {
    hide Discover, FilterMap, Usable, Apply, IsLeast, Confidence, Suggestions, InVersionSpace;
    EarlyAnswers(raw, query);
    var pairs := FilterMap(raw, Usable);
    var n := |pairs|;
    if n < MIN_OBSERVATIONS { return Result(InsufficientGroup, n, None); }
    var candidates := GatherSuggestions(pairs);
    if candidates == {} { return Result(NoRelationship, n, None); }
    var perfect := KeepPerfect(candidates, pairs);
    assert perfect == VersionSpace(pairs);
    if perfect == {} || n < MIN_SUPPORTING_PAIRS { return Result(Ambiguous, n, None); }
    if Tokens(query) == [] { return Result(NoRelationship, n, None); }
    var top := PickFirst(perfect);
    TopIsDetermined(raw, query, top);
    AppliesToTokens(top, query);
    if exists h :: h in perfect && Apply(h, query) != Apply(top, query) {
      r := Result(Ambiguous, n, None);
    } else {
      r := Result(Candidate, n, Some(Evidence(top, Apply(top, query).value, n, Confidence(n))));
    }
  }

  /** The answers given before a hypothesis is chosen. */
  lemma EarlyAnswers(raw: seq<(Source, Option<string>)>, query: Source)
    ensures var pairs := FilterMap(raw, Usable);
      var n := |pairs|;
      && (n < MIN_OBSERVATIONS ==> Discover(raw, query) == Result(InsufficientGroup, n, None))
      && (n >= MIN_OBSERVATIONS ==>
           && (Suggestions(pairs) == {} ==> Discover(raw, query) == Result(NoRelationship, n, None))
           && (Suggestions(pairs) != {} && (VersionSpace(pairs) == {} || n < MIN_SUPPORTING_PAIRS) ==>
                Discover(raw, query) == Result(Ambiguous, n, None))
           && (VersionSpace(pairs) != {} && n >= MIN_SUPPORTING_PAIRS && Tokens(query) == [] ==>
                Discover(raw, query) == Result(NoRelationship, n, None)))
  {
    hide FilterMap, Usable, Apply, Reproduces, SuggestedBy, IsLeast, Confidence, InVersionSpace, Suggestions;
    var pairs := FilterMap(raw, Usable);
    if h :| h in VersionSpace(pairs) { SuggestedInSpace(pairs, h); }
  }

  lemma SuggestedInSpace(pairs: seq<Pair>, h: Hypothesis)
    requires h in VersionSpace(pairs)
    ensures h in Suggestions(pairs)
  {
  }

  lemma TopIsDetermined(raw: seq<(Source, Option<string>)>, query: Source, top: Hypothesis)
    requires |FilterMap(raw, Usable)| >= MIN_OBSERVATIONS
    requires IsLeast(top, VersionSpace(FilterMap(raw, Usable))) && Tokens(query) != []
    ensures var n, space := |FilterMap(raw, Usable)|, VersionSpace(FilterMap(raw, Usable));
      Discover(raw, query) ==
        if exists h :: h in space && Apply(h, query) != Apply(top, query) then Result(Ambiguous, n, None)
        else Result(Candidate, n, Some(Evidence(top, Apply(top, query).value, n, Confidence(n))))
  {
    hide FilterMap, Usable, Reproduces, SuggestedBy, Confidence, InVersionSpace, Before;
    var space := VersionSpace(FilterMap(raw, Usable));
    forall h | IsLeast(h, space) ensures h == top { LeastIsUnique(h, top, space); }
  }

  // --- what the engine guarantees -----------------------------------------------------------

  /** Two hypotheses of the version space never disagree on the query. */
  ghost predicate Unanimous(pairs: seq<Pair>, query: Source) {
    forall h, g :: InVersionSpace(h, pairs) && InVersionSpace(g, pairs) ==> Apply(h, query) == Apply(g, query)
  }

  /** A candidate is returned exactly when a non-empty version space is unanimous, and it is the unanimous value. */
  lemma CandidateIffUnanimous(raw: seq<(Source, Option<string>)>, query: Source)
    ensures var r, pairs := Discover(raw, query), FilterMap(raw, Usable);
      && (r.status == Candidate <==> r.best.Some?)
      && (r.status == Candidate <==>
            && |pairs| >= MIN_OBSERVATIONS && Tokens(query) != []
            && (exists h :: InVersionSpace(h, pairs)) && Unanimous(pairs, query))
      && (r.status == Candidate ==>
            forall h :: InVersionSpace(h, pairs) ==> Apply(h, query) == Some(r.best.value.candidateValue))
  {
    var pairs := FilterMap(raw, Usable);
    var space := VersionSpace(pairs);
    hide Apply, InVersionSpace, Suggestions, VersionSpace, Usable, Tokens;
    if |pairs| >= MIN_OBSERVATIONS && space != {} && Tokens(query) != [] {
      LeastExists(space);
      var top :| IsLeast(top, space);
      TopIsDetermined(raw, query, top);
      AppliesToTokens(top, query);
    }
  }

  lemma AppliesToTokens(h: Hypothesis, query: Source)
    ensures Apply(h, query).Some? <==> Tokens(query) != []
  {
  }

  /**
    Completeness: any menu transformation that reproduces every pair is found, if its core starts where its prefix ends.
  */
  lemma VersionSpaceIsComplete(h: Hypothesis, pairs: seq<Pair>)
    requires h.letterCase in CASES && h.delimiter in DELIMITERS
    ensures InVersionSpace(h, pairs) <==>
      && (forall p :: p in pairs ==> Apply(h, p.source) == Some(p.target))
      && exists p :: p in pairs && Find(p.target, Core(h.letterCase, h.delimiter, p.source)) == Some(|h.prefix|)
  {
    forall p | p in pairs
      ensures SuggestedBy(h, p) <==>
        && Apply(h, p.source) == Some(p.target)
        && Find(p.target, Core(h.letterCase, h.delimiter, p.source)) == Some(|h.prefix|)
    {
      SuggestedIffFirstOccurrence(h, p);
    }
  }

  /** A query with the tokens of a training source gets that pair's own target. */
  lemma TrainingSourceGetsItsTarget(raw: seq<(Source, Option<string>)>, query: Source, pair: Pair)
    requires pair in FilterMap(raw, Usable) && Tokens(query) == Tokens(pair.source) != []
    ensures var r, pairs := Discover(raw, query), FilterMap(raw, Usable);
      && (r.status == Candidate <==> |pairs| >= MIN_OBSERVATIONS && exists h :: InVersionSpace(h, pairs))
      && (r.status == Candidate ==> r.best.Some? && r.best.value.candidateValue == pair.target)
  {
    var pairs := FilterMap(raw, Usable);
    CandidateIffUnanimous(raw, query);
    forall h | InVersionSpace(h, pairs) ensures Apply(h, query) == Some(pair.target) {
      assert Apply(h, query) == Apply(h, pair.source);
    }
  }

  /** The whole result is a function of the multiset of pairs. */
  lemma OrderIndependence(xs: seq<(Source, Option<string>)>, ys: seq<(Source, Option<string>)>, query: Source)
    requires multiset(xs) == multiset(ys)
    ensures Discover(xs, query) == Discover(ys, query)
  {
    var p, q := FilterMap(xs, Usable), FilterMap(ys, Usable);
    FilterMapPermutation(xs, ys, Usable);
    SameMembers(p, q);
    hide Apply, SuggestedBy, Usable, Tokens, Discover, FilterMap, Before;
    assert Suggestions(p) == Suggestions(q);
    assert VersionSpace(p) == VersionSpace(q);
    SameDiscovery(xs, ys, query);
  }

  lemma SameDiscovery(xs: seq<(Source, Option<string>)>, ys: seq<(Source, Option<string>)>, query: Source)
    requires |FilterMap(xs, Usable)| == |FilterMap(ys, Usable)|
    requires Suggestions(FilterMap(xs, Usable)) == Suggestions(FilterMap(ys, Usable))
    requires VersionSpace(FilterMap(xs, Usable)) == VersionSpace(FilterMap(ys, Usable))
    ensures Discover(xs, query) == Discover(ys, query)
  {
    var p := FilterMap(xs, Usable);
    hide Apply, Suggestions, Usable, Tokens, FilterMap, Before, VersionSpace;
    if |p| >= MIN_OBSERVATIONS && VersionSpace(p) != {} && Tokens(query) != [] {
      LeastExists(VersionSpace(p));
      var top :| IsLeast(top, VersionSpace(p));
      TopIsDetermined(xs, query, top);
      TopIsDetermined(ys, query, top);
    }
  }
}
