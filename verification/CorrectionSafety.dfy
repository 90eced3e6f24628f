/** From a model's reply to a stored suggestion: the parser and the two passes that decide which value survives. */
module CorrectionSafety {
  import opened Collections
  import opened Text
  import opened CandidateAggregation
  import RelationshipEvidence
  import RelationshipLaws

  datatype Json =
    | JNull
    | JBool(flag: bool)
    | JNumber(number: Number)
    | JString(text: string)
    | JArray(items: seq<Json>)
    | JObject(fields: map<string, Json>)

  datatype Category = HighConfidence | NeedsReview | CannotInfer

  /** Who explains a suggestion: the model, or one of the backend's own reasons. */
  datatype Reason =
    | FromModel(text: string)
    | NotJson | NotAnObject | UnknownCategory
    | EvidenceStatus | EvidenceMismatch
    | NoCandidate | CandidateMismatch | CandidateDespiteModel

  datatype Suggestion = Suggestion(category: Category, value: Option<string>, confidence: Option<real>,
                                   reason: Option<Reason>)

  /** The TypeError of an unhashable category. */
  datatype Parsed = Parsed(suggestion: Suggestion) | Unhashable

  // --- the reply --------------------------------------------------------------------------

  function Field(fields: map<string, Json>, name: string): Json {
    if name in fields then fields[name] else JNull
  }

  function ToCategory(j: Json): Option<Category> {
    if j == JString("AI_HIGH_CONFIDENCE") then Some(HighConfidence)
    else if j == JString("NEEDS_REVIEW") then Some(NeedsReview)
    else if j == JString("CANNOT_INFER") then Some(CannotInfer)
    else None
  }

  function NonBlankText(j: Json): Option<string> {
    if j.JString? && Strip(j.text) != "" then Some(j.text) else None
  }

  /** A number in [0, 1]; a bool counts as the number it is. */
  function ToConfidence(j: Json): Option<real> {
    match j
    case JBool(flag) => Some(if flag then 1.0 else 0.0)
    case JNumber(Finite(x)) => if 0.0 <= x <= 1.0 then Some(x) else None
    case _ => None
  }

  function Fallback(reason: Reason): Parsed {
    Parsed(Suggestion(NeedsReview, None, None, Some(reason)))
  }

  /** `_parse_correction_response`; None is a reply that is no JSON text. */
  function Parse(reply: Option<Json>): Parsed {
    match reply
    case None => Fallback(NotJson)
    case Some(JObject(fields)) =>
      var raw := Field(fields, "category");
      if raw.JArray? || raw.JObject? then Unhashable
      else if ToCategory(raw).None? then Fallback(UnknownCategory)
      else
        var claimed := ToCategory(raw).value;
        var value := if claimed == HighConfidence then NonBlankText(Field(fields, "suggested_value")) else None;
        var category := if claimed == HighConfidence && value.None? then NeedsReview else claimed;
        var confidence := if category == HighConfidence then ToConfidence(Field(fields, "confidence")) else None;
        var text := NonBlankText(Field(fields, "reasoning"));
        Parsed(Suggestion(category, value, confidence, if text.Some? then Some(FromModel(text.value)) else None))
    case Some(_) => Fallback(NotAnObject)
  }

  // --- numbers as text ---------------------------------------------------------------------

  function IntText(n: int): string {
    if n < 0 then "-" + Decimal(-n) else Decimal(n)
  }

  /** `round(x, 6)`: the nearest multiple of a millionth, the even one of two. */
  function Round6(x: real): real {
    var scaled := x * 1000000.0;
    var n, rest := scaled.Floor, scaled - scaled.Floor as real;
    (if rest < 0.5 || (rest == 0.5 && n % 2 == 0) then n else n + 1) as real / 1000000.0
  }

  /** `_format_number`; `repr` renders a float. */
  function FormatNumber(x: real, repr: real -> string): string {
    if x.Floor as real == x then IntText(x.Floor) else repr(Round6(x))
  }

  /** `float` reads back what `str` wrote of integers and `repr` of numbers rounded to six places. */
  ghost predicate ReadsBack(parse: string -> Option<Number>, repr: real -> string) {
    && (forall x :: parse(repr(Round6(x))) == Some(Finite(Round6(x))))
    && (forall n :: parse(IntText(n)) == Some(Finite(n as real)))
  }

  /** `_try_parse_float` */
  function TryParseFloat(text: string, parse: string -> Option<Number>): Option<real> {
    match parse(text)
    case Some(Finite(x)) => Some(x)
    case _ => None
  }

  predicate Matches(a: real, b: real) { RelationshipEvidence.IsClose(a, b, 0.001) }

  /** `_values_match` */
  predicate ValuesMatch(a: string, b: string, parse: string -> Option<Number>) {
    a == b || (TryParseFloat(a, parse).Some? && TryParseFloat(b, parse).Some?
               && Matches(TryParseFloat(a, parse).value, TryParseFloat(b, parse).value))
  }

  // --- the two passes ------------------------------------------------------------------------

  function Capped(claimed: Option<real>, limit: real): Option<real> {
    Some(if claimed.Some? then Minimum(claimed.value, limit) else limit)
  }

  /** `_apply_evidence_safety` */
  function ApplyEvidence(s: Suggestion, evidence: Option<RelationshipEvidence.Result>, parse: string -> Option<Number>,
                         repr: real -> string): Suggestion {
    if evidence.None? || s.category != HighConfidence then s
    else if evidence.value.status != Candidate || evidence.value.best.None? then
      Suggestion(NeedsReview, None, None, Some(EvidenceStatus))
    else
      var best := evidence.value.best.value;
      var claimed := if s.value.None? then None else TryParseFloat(s.value.value, parse);
      if claimed.None? || !Matches(claimed.value, best.value) then
        Suggestion(NeedsReview, None, None, Some(EvidenceMismatch))
      else s.(value := Some(FormatNumber(best.value, repr)), confidence := Capped(s.confidence, best.confidence))
  }

  /** `_apply_advanced_evidence_safety` */
  function ApplyAggregation(s: Suggestion, aggregation: Option<Aggregation>,
                            parse: string -> Option<Number>): Suggestion {
    if aggregation.None? then s
    else if aggregation.value.ambiguous || aggregation.value.recommended.None? then
      Suggestion(if s.category == HighConfidence then NeedsReview else s.category, None, None,
                 if s.reason.Some? then s.reason else Some(NoCandidate))
    else
      var c := aggregation.value.recommended.value;
      match s.category
      case HighConfidence =>
        if s.value.None? || !ValuesMatch(s.value.value, c.value, parse) then
          Suggestion(NeedsReview, Some(c.value), None, Some(CandidateMismatch))
        else Suggestion(HighConfidence, Some(c.value), Capped(s.confidence, c.confidence), s.reason)
      case CannotInfer =>
        Suggestion(NeedsReview, Some(c.value), None, if s.reason.Some? then s.reason else Some(CandidateDespiteModel))
      case NeedsReview => Suggestion(NeedsReview, Some(c.value), None, s.reason)
  }

  /** What `generate_corrections` stores for a reply that parses. */
  function Store(s: Suggestion, evidence: Option<RelationshipEvidence.Result>, aggregation: Option<Aggregation>,
                 parse: string -> Option<Number>, repr: real -> string): Suggestion {
    ApplyAggregation(ApplyEvidence(s, evidence, parse, repr), aggregation, parse)
  }

  // --- the parser ---------------------------------------------------------------------------------

  /** A parsed reply carries a value exactly when it is highly confident, and the value is the model's own text. */
  lemma ParsedIsConsistent(reply: Option<Json>)
    requires Parse(reply).Parsed?
    ensures var s := Parse(reply).suggestion;
      && (s.value.Some? <==> s.category == HighConfidence)
      && (s.confidence.Some? ==> s.category == HighConfidence && 0.0 <= s.confidence.value <= 1.0)
      && (s.value.Some? ==>
            && reply.Some? && reply.value.JObject? && Strip(s.value.value) != ""
            && Field(reply.value.fields, "suggested_value") == JString(s.value.value)
            && Field(reply.value.fields, "category") == JString("AI_HIGH_CONFIDENCE"))
  {
  }

  /** Documented never to raise, it raises exactly on an object whose category is an array or an object. */
  lemma ParserRaisesIff(reply: Option<Json>)
    ensures Parse(reply).Unhashable? <==>
      reply.Some? && reply.value.JObject? && "category" in reply.value.fields
      && (reply.value.fields["category"].JArray? || reply.value.fields["category"].JObject?)
  {
  }

  lemma ListCategoryRaises()
    ensures Parse(Some(JObject(map["category" := JArray([JString("NEEDS_REVIEW")])]))) == Unhashable
  {
  }

  // --- rounding fits the tolerance ------------------------------------------------------------------

  lemma Round6IsNear(x: real)
    ensures RelationshipEvidence.Abs(Round6(x) - x) <= 0.0000005
  {
    var scaled := x * 1000000.0;
    var n := scaled.Floor;
    var rest := scaled - n as real;
    var m := if rest < 0.5 || (rest == 0.5 && n % 2 == 0) then n else n + 1;
    assert -0.5 <= m as real - scaled <= 0.5;
    assert Round6(x) - x == (m as real - scaled) / 1000000.0;
  }

  lemma NearMatches(y: real, x: real)
    requires RelationshipEvidence.Abs(y - x) <= 0.0000005
    ensures Matches(y, x)
  {
  }

  /** The backend's own text always passes the backend's own check. */
  lemma FormattedMatches(x: real, parse: string -> Option<Number>, repr: real -> string)
    requires ReadsBack(parse, repr)
    ensures TryParseFloat(FormatNumber(x, repr), parse).Some?
    ensures var y := TryParseFloat(FormatNumber(x, repr), parse).value;
      Matches(y, x) && RelationshipEvidence.Abs(y - x) <= 0.0000005
  {
    Round6IsNear(x);
    hide Round6, IntText;
    var y := TryParseFloat(FormatNumber(x, repr), parse).value;
    NearMatches(y, x);
  }

  // --- such readers and writers exist ---------------------------------------------------------------

  lemma FirstOfDecimal(n: nat)
    ensures Decimal(n) != "" && IsDigit(Decimal(n)[0])
  {
  }

  /** Different integers are written differently. */
  lemma IntTextIsInjective(a: int, b: int)
    requires IntText(a) == IntText(b)
    ensures a == b
  {
    var m, n := if a < 0 then -a else a, if b < 0 then -b else b;
    FirstOfDecimal(m);
    FirstOfDecimal(n);
    ParseDecimal(m);
    ParseDecimal(n);
    hide Decimal;
    assert (a < 0) == (b < 0);
    if a < 0 { assert ("-" + Decimal(m))[1..] == Decimal(m) && ("-" + Decimal(n))[1..] == Decimal(n); }
  }

  lemma IntTextHasNoMark(n: int, s: string)
    ensures IntText(n) != "m" + s
  {
    FirstOfDecimal(if n < 0 then -n else n);
    hide Decimal;
  }

  /** A reader of integers, and of marked counts of millionths. */
  ghost function ReadMarked(s: string): Option<Number> {
    if exists n :: s == IntText(n) then
      var n :| s == IntText(n);
      Some(Finite(n as real))
    else if exists n :: s == "m" + IntText(n) then
      var n :| s == "m" + IntText(n);
      Some(Finite(n as real / 1000000.0))
    else None
  }

  function WriteMarked(y: real): string { "m" + IntText((y * 1000000.0).Floor) }

  lemma ReadInteger(n: int)
    ensures ReadMarked(IntText(n)) == Some(Finite(n as real))
  {
    forall k | IntText(n) == IntText(k) ensures k == n { IntTextIsInjective(n, k); }
    hide IntText;
  }

  lemma ReadMillionths(n: int)
    ensures ReadMarked("m" + IntText(n)) == Some(Finite(n as real / 1000000.0))
  {
    var s := "m" + IntText(n);
    forall k ensures s != IntText(k) { IntTextHasNoMark(k, IntText(n)); }
    forall k | s == "m" + IntText(k) ensures k == n {
      assert s[1..] == IntText(k) && s[1..] == IntText(n);
      IntTextIsInjective(n, k);
    }
    hide IntText;
  }

  /** A rounded number is a whole count of millionths. */
  lemma Round6InMillionths(x: real)
    ensures Round6(x) == (Round6(x) * 1000000.0).Floor as real / 1000000.0
  {
    var scaled := x * 1000000.0;
    var n, rest := scaled.Floor, scaled - scaled.Floor as real;
    var m := if rest < 0.5 || (rest == 0.5 && n % 2 == 0) then n else n + 1;
    assert Round6(x) == m as real / 1000000.0;
    assert Round6(x) * 1000000.0 == m as real;
  }

  lemma RoundedRoundTrip(x: real)
    ensures ReadMarked(WriteMarked(Round6(x))) == Some(Finite(Round6(x)))
  {
    Round6InMillionths(x);
    hide ReadMarked, Round6, IntText;
    ReadMillionths((Round6(x) * 1000000.0).Floor);
  }

  /** The hypothesis on reading and writing can be met. */
  lemma ReadsBackIsMet()
    ensures exists parse, repr :: ReadsBack(parse, repr)
  {
    hide ReadMarked, WriteMarked, Round6, IntText;
    var parse, repr := (s: string) => ReadMarked(s), (y: real) => WriteMarked(y);
    forall x ensures parse(repr(Round6(x))) == Some(Finite(Round6(x))) { RoundedRoundTrip(x); }
    forall n ensures parse(IntText(n)) == Some(Finite(n as real)) { ReadInteger(n); }
    assert ReadsBack(parse, repr);
  }

  // --- the passes -----------------------------------------------------------------------------------

  lemma EvidenceIsIdempotent(s: Suggestion, evidence: Option<RelationshipEvidence.Result>,
                             parse: string -> Option<Number>, repr: real -> string)
    requires ReadsBack(parse, repr)
    ensures var once := ApplyEvidence(s, evidence, parse, repr); ApplyEvidence(once, evidence, parse, repr) == once
  {
    if evidence.Some? && evidence.value.best.Some? {
      FormattedMatches(evidence.value.best.value.value, parse, repr);
    }
    hide Matches, ReadsBack, FormatNumber;
  }

  lemma AggregationIsIdempotent(s: Suggestion, aggregation: Option<Aggregation>, parse: string -> Option<Number>)
    ensures var once := ApplyAggregation(s, aggregation, parse); ApplyAggregation(once, aggregation, parse) == once
  {
    hide Matches;
  }

  /** High confidence survives the first pass exactly when the evidence is absent or agrees. */
  lemma EvidenceKeepsHighIff(s: Suggestion, evidence: Option<RelationshipEvidence.Result>,
                             parse: string -> Option<Number>, repr: real -> string)
    ensures ApplyEvidence(s, evidence, parse, repr).category == HighConfidence <==>
      && s.category == HighConfidence
      && (evidence.None?
          || (evidence.value.status == Candidate && evidence.value.best.Some? && s.value.Some?
              && TryParseFloat(s.value.value, parse).Some?
              && Matches(TryParseFloat(s.value.value, parse).value, evidence.value.best.value.value)))
  {
    hide Matches;
  }

  /** It survives the second exactly when there is no aggregation, or an undisputed candidate that agrees. */
  lemma AggregationKeepsHighIff(s: Suggestion, aggregation: Option<Aggregation>, parse: string -> Option<Number>)
    ensures ApplyAggregation(s, aggregation, parse).category == HighConfidence <==>
      && s.category == HighConfidence
      && (aggregation.None?
          || (!aggregation.value.ambiguous && aggregation.value.recommended.Some? && s.value.Some?
              && ValuesMatch(s.value.value, aggregation.value.recommended.value.value, parse)))
  {
    hide ValuesMatch;
  }

  /**
    No value is invented: under aggregation a stored value is the recommended candidate's text; otherwise, under
    relationship evidence, it is the engine's number as the backend writes it; otherwise it is the model's own text.
  */
  lemma NoValueIsInvented(reply: Option<Json>, evidence: Option<RelationshipEvidence.Result>,
                          aggregation: Option<Aggregation>, parse: string -> Option<Number>, repr: real -> string)
    requires Parse(reply).Parsed?
    ensures var r := Store(Parse(reply).suggestion, evidence, aggregation, parse, repr);
      r.value.Some? ==>
        if aggregation.Some? then
          !aggregation.value.ambiguous && aggregation.value.recommended.Some?
          && r.value.value == aggregation.value.recommended.value.value
        else if evidence.Some? then
          evidence.value.status == Candidate && evidence.value.best.Some?
          && r.value.value == FormatNumber(evidence.value.best.value.value, repr)
        else
          reply.Some? && reply.value.JObject? && Field(reply.value.fields, "suggested_value") == JString(r.value.value)
  {
    ParsedIsConsistent(reply);
    hide Parse, ValuesMatch, Matches, FormatNumber;
  }

  /**
    A stored confidence comes only with the high category, which the model itself must claim, and never exceeds an
    engine's.
  */
  lemma ConfidenceIsNeverRaised(reply: Option<Json>, evidence: Option<RelationshipEvidence.Result>,
                                aggregation: Option<Aggregation>, parse: string -> Option<Number>, repr: real -> string)
    requires Parse(reply).Parsed?
    ensures var r, s := Store(Parse(reply).suggestion, evidence, aggregation, parse, repr), Parse(reply).suggestion;
      && (r.category == HighConfidence ==>
            s.category == HighConfidence && r.value.Some?
            && Field(reply.value.fields, "category") == JString("AI_HIGH_CONFIDENCE"))
      && (r.confidence.Some? ==>
            && r.category == HighConfidence
            && (s.confidence.Some? ==> r.confidence.value <= s.confidence.value)
            && (evidence.Some? ==>
                 evidence.value.best.Some? && r.confidence.value <= evidence.value.best.value.confidence)
            && (aggregation.Some? ==>
                 aggregation.value.recommended.Some?
                 && r.confidence.value <= aggregation.value.recommended.value.confidence))
  {
    ParsedIsConsistent(reply);
    hide Parse, ValuesMatch, Matches, FormatNumber, ToCategory;
  }

  /** With the real aggregator behind it, a stored value has the greatest confidence and no rival within the margin. */
  lemma StoredValueIsUndisputed(reply: Option<Json>, evidence: Option<RelationshipEvidence.Result>,
                                candidates: seq<Candidate>, parse: string -> Option<Number>, repr: real -> string)
    requires Parse(reply).Parsed?
    requires Store(Parse(reply).suggestion, evidence, Some(Aggregate(candidates, parse)), parse, repr).value.Some?
    ensures var aggregation := Some(Aggregate(candidates, parse));
      var text := Store(Parse(reply).suggestion, evidence, aggregation, parse, repr).value.value;
      exists top :: top in candidates && top.value == text
        && forall c :: c in candidates ==>
             c.confidence <= top.confidence
             && (IsNear(c, top) ==> ValuesEqual(c.value, text, parse))
  {
    NoValueIsInvented(reply, evidence, Some(Aggregate(candidates, parse)), parse, repr);
    RecommendedIsUndisputed(candidates, parse);
    hide Aggregate, Store, ValuesEqual;
    var top := Aggregate(candidates, parse).recommended.value;
    assert top in candidates && IsNear(top, top);
  }

  /**
    End to end: where an exact law holds, a stored number is the law's, within the engine's closeness and the rounding.
  */
  lemma ExactLawIsStored(reply: Option<Json>, target: string, failing: RelationshipEvidence.Row,
                         rows: seq<RelationshipEvidence.Row>, columns: seq<RelationshipEvidence.ColumnMeta>,
                         minGroupSize: nat, minFit: real, sqrt: real -> real, shape: RelationshipEvidence.Shape,
                         v: real, parse: string -> Option<Number>, repr: real -> string)
    requires Parse(reply).Parsed? && ReadsBack(parse, repr)
    requires minGroupSize >= 1 && RelationshipEvidence.IsSquareRoot(sqrt) && minFit <= 1.0
    requires RelationshipLaws.IsOffered(shape, RelationshipEvidence.Measures(columns, rows, target))
    requires var dimensions := RelationshipEvidence.Dimensions(columns, rows, target);
      var group := FilterMap(rows, RelationshipLaws.ComparedWith(failing, dimensions));
      RelationshipLaws.IsExactLaw(shape, target, group, failing, minGroupSize, v)
    ensures var evidence := RelationshipEvidence.Discover(target, failing, rows, columns, minGroupSize, minFit, sqrt);
      var r := Store(Parse(reply).suggestion, Some(evidence), None, parse, repr);
      r.value.Some? ==>
        exists x, y :: TryParseFloat(r.value.value, parse) == Some(y)
          && -0.0000005 <= y - x <= 0.0000005 && RelationshipLaws.AreClose(x, v, 0.01)
  {
    var evidence := RelationshipEvidence.Discover(target, failing, rows, columns, minGroupSize, minFit, sqrt);
    RelationshipLaws.ExactLawDecides(target, failing, rows, columns, minGroupSize, minFit, sqrt, shape, v);
    NoValueIsInvented(reply, Some(evidence), None, parse, repr);
    var r := Store(Parse(reply).suggestion, Some(evidence), None, parse, repr);
    if r.value.Some? {
      FormattedMatches(evidence.best.value.value, parse, repr);
    }
  }
}
