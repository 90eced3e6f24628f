/** What the parser and the two safety passes do in every case, on the fields of a reply and the texts compared. */
module SafetyTables {
  import opened Collections
  import opened Text
  import opened CandidateAggregation
  import opened CorrectionSafety
  import RelationshipEvidence
  import RelationshipLaws

  // --- the reply ----------------------------------------------------------------------------------------

  /** The field is there with this text, which is more than spaces. */
  ghost predicate SaysText(fields: map<string, Json>, name: string, text: string) {
    name in fields && fields[name] == JString(text) && HasText(text)
  }

  ghost predicate Says(fields: map<string, Json>, name: string, j: Json) {
    name in fields && fields[name] == j
  }

  /** A field that the parser can read as a confidence. */
  ghost predicate SaysConfidence(fields: map<string, Json>, x: real) {
    || (0.0 <= x <= 1.0 && Says(fields, "confidence", JNumber(Finite(x))))
    || (x == 1.0 && Says(fields, "confidence", JBool(true)))
    || (x == 0.0 && Says(fields, "confidence", JBool(false)))
  }

  ghost predicate IsReadConfidence(fields: map<string, Json>, confidence: Option<real>) {
    match confidence
    case Some(x) => SaysConfidence(fields, x)
    case None => forall x :: !SaysConfidence(fields, x)
  }

  ghost predicate IsReadReason(fields: map<string, Json>, reason: Option<Reason>) {
    match reason
    case Some(FromModel(text)) => SaysText(fields, "reasoning", text)
    case Some(_) => false
    case None => forall text :: !SaysText(fields, "reasoning", text)
  }

  ghost predicate ClaimsHigh(fields: map<string, Json>) {
    Says(fields, "category", JString("AI_HIGH_CONFIDENCE"))
  }

  /**
    What is read off an object with one of the three categories: a value and a confidence only of a high one, which
    without a value is for review instead.
  */
  ghost predicate IsReadOff(fields: map<string, Json>, s: Suggestion) {
    && IsReadReason(fields, s.reason)
    && match s.category
       case HighConfidence =>
         && ClaimsHigh(fields) && s.value.Some? && SaysText(fields, "suggested_value", s.value.value)
         && IsReadConfidence(fields, s.confidence)
       case NeedsReview =>
         && s.value == None && s.confidence == None
         && (Says(fields, "category", JString("NEEDS_REVIEW"))
             || (ClaimsHigh(fields) && forall text :: !SaysText(fields, "suggested_value", text)))
       case CannotInfer =>
         s.value == None && s.confidence == None && Says(fields, "category", JString("CANNOT_INFER"))
  }

  ghost predicate IsKnown(fields: map<string, Json>) {
    || ClaimsHigh(fields) || Says(fields, "category", JString("NEEDS_REVIEW"))
    || Says(fields, "category", JString("CANNOT_INFER"))
  }

  lemma TextIff(fields: map<string, Json>, name: string)
    ensures forall text :: NonBlankText(Field(fields, name)) == Some(text) <==> SaysText(fields, name, text)
    ensures NonBlankText(Field(fields, name)) == None <==> forall text :: !SaysText(fields, name, text)
  {
    var j := Field(fields, name);
    if j.JString? { BlankIffNoText(j.text); }
    hide Strip;
    if j.JString? && HasText(j.text) { assert SaysText(fields, name, j.text); }
  }

  lemma ConfidenceIff(fields: map<string, Json>)
    ensures IsReadConfidence(fields, ToConfidence(Field(fields, "confidence")))
  {
  }

  lemma CategoryTexts()
    ensures "AI_HIGH_CONFIDENCE" != "NEEDS_REVIEW" && "NEEDS_REVIEW" != "CANNOT_INFER"
    ensures "AI_HIGH_CONFIDENCE" != "CANNOT_INFER"
  {
    assert "AI_HIGH_CONFIDENCE"[0] == 'A' && "NEEDS_REVIEW"[0] == 'N' && "CANNOT_INFER"[0] == 'C';
  }

  /** Every reply: no JSON, no object, an unknown category, or what is read off the fields. */
  lemma ReplyIsRead(reply: Option<Json>)
    requires Parse(reply).Parsed?
    ensures var s := Parse(reply).suggestion;
      if reply.None? then s == Suggestion(NeedsReview, None, None, Some(NotJson))
      else if !reply.value.JObject? then s == Suggestion(NeedsReview, None, None, Some(NotAnObject))
      else if !IsKnown(reply.value.fields) then s == Suggestion(NeedsReview, None, None, Some(UnknownCategory))
      else IsReadOff(reply.value.fields, s)
  {
    CategoryTexts();
    if reply.Some? && reply.value.JObject? {
      var fields := reply.value.fields;
      TextIff(fields, "suggested_value");
      TextIff(fields, "reasoning");
      ConfidenceIff(fields);
      hide NonBlankText, ToConfidence, SaysText, IsReadConfidence;
    }
  }

  // --- the passes ---------------------------------------------------------------------------------------------

  /** The smaller of the model's confidence and the limit, or the limit if the model gave none. */
  ghost predicate IsCapped(c: Option<real>, claimed: Option<real>, limit: real) {
    && c.Some? && c.value <= limit && (claimed.Some? ==> c.value <= claimed.value)
    && (c.value == limit || c == claimed)
  }

  /** The text is a number that is close to x, within a thousandth of either. */
  ghost predicate IsNumberNear(text: string, x: real, parse: string -> Option<Number>) {
    parse(text).Some? && parse(text).value.Finite? && RelationshipLaws.AreClose(parse(text).value.value, x, 0.001)
  }

  /**
    The first pass: without evidence, and below high confidence, nothing changes; evidence that is no candidate, or a
    value that is not near it, is for review without a value; otherwise the engine's number and the smaller confidence
    are stored.
  */
  lemma EvidenceDecides(s: Suggestion, evidence: Option<RelationshipEvidence.Result>,
                        parse: string -> Option<Number>, repr: real -> string)
    ensures var r := ApplyEvidence(s, evidence, parse, repr);
      if evidence.None? || s.category != HighConfidence then r == s
      else if evidence.value.status != Candidate || evidence.value.best.None? then
        r == Suggestion(NeedsReview, None, None, Some(EvidenceStatus))
      else
        var best := evidence.value.best.value;
        if s.value.None? || !IsNumberNear(s.value.value, best.value, parse) then
          r == Suggestion(NeedsReview, None, None, Some(EvidenceMismatch))
        else
          && r == Suggestion(HighConfidence, Some(FormatNumber(best.value, repr)), r.confidence, s.reason)
          && IsCapped(r.confidence, s.confidence, best.confidence)
  {
    if evidence.Some? && evidence.value.best.Some? && s.value.Some? {
      NearIff(s.value.value, evidence.value.best.value.value, parse);
    }
    hide FormatNumber, TryParseFloat, Matches, IsNumberNear;
  }

  lemma NearIff(text: string, x: real, parse: string -> Option<Number>)
    ensures IsNumberNear(text, x, parse) <==>
      TryParseFloat(text, parse).Some? && Matches(TryParseFloat(text, parse).value, x)
  {
    if TryParseFloat(text, parse).Some? { RelationshipLaws.CloseIff(TryParseFloat(text, parse).value, x); }
    hide RelationshipLaws.AreClose, RelationshipEvidence.IsClose;
  }

  /** The same text, or two numbers within a thousandth of either. */
  ghost predicate TextsAgree(a: string, b: string, parse: string -> Option<Number>) {
    a == b || (parse(b).Some? && parse(b).value.Finite? && IsNumberNear(a, parse(b).value.value, parse))
  }

  lemma AgreeIff(a: string, b: string, parse: string -> Option<Number>)
    ensures TextsAgree(a, b, parse) <==> ValuesMatch(a, b, parse)
  {
    if parse(b).Some? && parse(b).value.Finite? { NearIff(a, parse(b).value.value, parse); }
    hide IsNumberNear, Matches;
  }

  ghost function ReasonOr(reason: Option<Reason>, other: Reason): Option<Reason> {
    if reason.Some? then reason else Some(other)
  }

  /**
    The second pass: without an aggregation nothing changes; without an undisputed candidate no value is stored; with
    one its value is, in every category: as the model's own if that agrees, and for review otherwise.
  */
  lemma AggregationDecides(s: Suggestion, aggregation: Option<Aggregation>, parse: string -> Option<Number>)
    ensures var r := ApplyAggregation(s, aggregation, parse);
      if aggregation.None? then r == s
      else if aggregation.value.ambiguous || aggregation.value.recommended.None? then
        r == Suggestion(if s.category == CannotInfer then CannotInfer else NeedsReview, None, None,
                        ReasonOr(s.reason, NoCandidate))
      else
        var c := aggregation.value.recommended.value;
        && r.value == Some(c.value)
        && (if s.category == HighConfidence && s.value.Some? && TextsAgree(s.value.value, c.value, parse) then
              r.category == HighConfidence && r.reason == s.reason && IsCapped(r.confidence, s.confidence, c.confidence)
            else
              && r.category == NeedsReview && r.confidence == None
              && r.reason == match s.category
                             case HighConfidence => Some(CandidateMismatch)
                             case CannotInfer => ReasonOr(s.reason, CandidateDespiteModel)
                             case NeedsReview => s.reason)
  {
    if s.value.Some? && aggregation.Some? && aggregation.value.recommended.Some? {
      AgreeIff(s.value.value, aggregation.value.recommended.value.value, parse);
    }
    hide ValuesMatch, TextsAgree;
  }

  // --- numbers as text -----------------------------------------------------------------------------------------

  /** The whole number of millionths that is nearest to x, an even one if two are. */
  ghost predicate IsNearest(n: int, x: real) {
    && n as real - 0.5 <= 1000000.0 * x <= n as real + 0.5
    && (1000000.0 * x == n as real - 0.5 || 1000000.0 * x == n as real + 0.5 ==> n % 2 == 0)
  }

  ghost predicate IsRounded(y: real, x: real) {
    exists n: int :: IsNearest(n, x) && 1000000.0 * y == n as real
  }

  ghost predicate IsWhole(x: real, n: int) { x == n as real }

  lemma RoundedIs(x: real)
    ensures IsRounded(Round6(x), x)
  {
    var scaled := x * 1000000.0;
    var n, rest := scaled.Floor, scaled - scaled.Floor as real;
    var m := if rest < 0.5 || (rest == 0.5 && n % 2 == 0) then n else n + 1;
    assert IsNearest(m, x);
    assert 1000000.0 * Round6(x) == m as real;
  }

  /** Whole numbers are written in decimal, all others as `repr` writes them rounded to six places. */
  lemma NumbersAreWritten(x: real, repr: real -> string)
    ensures forall n: int :: IsWhole(x, n) ==>
      FormatNumber(x, repr) == if n < 0 then "-" + Decimal(-n) else Decimal(n)
    ensures (forall n: int :: !IsWhole(x, n)) ==> FormatNumber(x, repr) == repr(Round6(x))
  {
    hide Round6, Decimal;
    assert IsWhole(x, x.Floor) <==> x.Floor as real == x;
  }
}
