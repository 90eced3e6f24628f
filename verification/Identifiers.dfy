/** Identifier texts: an optional prefix, a signed run of digits, an optional suffix. */
module Identifiers {
  import opened Collections
  import opened Text

  datatype Template = Template(prefix: string, suffix: string)

  datatype Parsed = Parsed(raw: string, template: Template, number: int, width: nat)

  /** `[^0-9-]` */
  predicate IsOther(c: char) { !IsDigit(c) && c != '-' }

  /** The decomposition the identifier pattern asks for. */
  ghost predicate Reads(text: string, t: Template, minus: bool, digits: string) {
    && text == t.prefix + (Sign(minus) + (digits + t.suffix))
    && All(t.prefix, IsOther) && All(t.suffix, IsOther)
    && digits != "" && All(digits, IsDigit)
  }

  function Sign(minus: bool): string {
    if minus then "-" else ""
  }

  function Signed(minus: bool, n: nat): (r: int) {
    var m: int := n;
    if minus then -m else m
  }

  /** The unsigned tail of the pattern: digits, then no more digits or minus signs. */
  function SplitNumber(body: string): (r: Option<(string, string)>)
    ensures r.Some? ==> All(r.value.0, IsDigit)
  {
    var w := Run(body, IsDigit);
    if w == 0 || Run(body[w..], IsOther) != |body[w..]| then None else Some((body[..w], body[w..]))
  }

  /** `_IDENTIFIER_PATTERN.match(text)` and `int(digits)`, on stripped text. */
  function ParseText(text: string): (r: Option<Parsed>) {
    var i := Run(text, IsOther);
    var minus := i < |text| && text[i] == '-';
    match SplitNumber(text[if minus then i + 1 else i..])
    case None => None
    case Some((digits, suffix)) =>
      Some(Parsed(text, Template(text[..i], suffix), Signed(minus, ParseNat(digits)), |digits|))
  }

  function ParseIdentifier(value: string): (r: Option<Parsed>) {
    ParseText(Strip(value))
  }

  lemma SplitNumberFinds(digits: string, suffix: string)
    requires digits != "" && All(digits, IsDigit) && All(suffix, IsOther)
    ensures SplitNumber(digits + suffix) == Some((digits, suffix))
  {
    RunLength(digits, suffix, IsDigit);
    assert (digits + suffix)[|digits|..] == suffix && (digits + suffix)[..|digits|] == digits;
    assert suffix + "" == suffix;
    RunLength(suffix, "", IsOther);
  }

  lemma SplitNumberSound(body: string)
    requires SplitNumber(body).Some?
    ensures var (digits, suffix) := SplitNumber(body).value;
      body == digits + suffix && digits != "" && All(suffix, IsOther)
  {
    var suffix := SplitNumber(body).value.1;
    assert suffix[..|suffix|] == suffix;
  }

  /** The prefix ends at the sign or at the first digit. */
  lemma PrefixEnds(text: string, prefix: string, minus: bool, body: string)
    requires text == prefix + (Sign(minus) + body)
    requires All(prefix, IsOther) && body != "" && IsDigit(body[0])
    ensures var i := Run(text, IsOther);
      && i == |prefix| < |text| && text[..i] == prefix
      && (minus <==> text[i] == '-')
      && text[if minus then i + 1 else i..] == body
  {
    var signed := Sign(minus) + body;
    assert signed[0] == if minus then '-' else body[0];
    RunLength(prefix, signed, IsOther);
    Cut(prefix, signed);
    assert text[|prefix|] == signed[0];
    assert text[|prefix| + |Sign(minus)|..] == body;
  }

  /** A text that can be decomposed is parsed to that decomposition, so there is only one. */
  lemma ParseFindsTheDecomposition(text: string, t: Template, minus: bool, digits: string)
    requires Reads(text, t, minus, digits)
    ensures ParseText(text) == Some(Parsed(text, t, Signed(minus, ParseNat(digits)), |digits|))
  {
    assert (digits + t.suffix)[0] == digits[0];
    PrefixEnds(text, t.prefix, minus, digits + t.suffix);
    SplitNumberFinds(digits, t.suffix);
  }

  lemma Cut(a: string, b: string)
    ensures (a + b)[..|a|] == a && (a + b)[|a|..] == b
  {
  }

  /** Only a text that can be decomposed is parsed. */
  lemma ParsedCanBeDecomposed(text: string)
    ensures ParseText(text).Some? <==> exists t, minus, digits :: Reads(text, t, minus, digits)
  {
    if ParseText(text).Some? {
      var i := Run(text, IsOther);
      var minus := i < |text| && text[i] == '-';
      var body := text[if minus then i + 1 else i..];
      SplitNumberSound(body);
      var (digits, suffix) := SplitNumber(body).value;
      assert text == text[..i] + (Sign(minus) + body);
      assert Reads(text, Template(text[..i], suffix), minus, digits);
    }
    if t, minus, digits :| Reads(text, t, minus, digits) {
      ParseFindsTheDecomposition(text, t, minus, digits);
    }
  }

  // --- writing an identifier ---------------------------------------------------

  /** The digits of a number, zero-filled when every member has one width. */
  function Numeral(n: nat, width: Option<nat>): (digits: string)
    ensures digits != "" && All(digits, IsDigit)
    ensures |digits| == if width.Some? && |Decimal(n)| < width.value then width.value else |Decimal(n)|
  {
    match width case Some(w) => ZeroFill(Decimal(n), w) case None => Decimal(n)
  }

  function Magnitude(number: int): nat {
    if number < 0 then -number else number
  }

  /** `_format_candidate` */
  function Format(t: Template, number: int, width: Option<nat>): (text: string) {
    t.prefix + (Sign(number < 0) + (Numeral(Magnitude(number), width) + t.suffix))
  }

  /** What a parse of stripped text yields as its template. */
  ghost predicate WellFormed(t: Template) {
    && All(t.prefix, IsOther) && All(t.suffix, IsOther)
    && (t.prefix != "" ==> !IsSpace(t.prefix[0]))
    && (t.suffix != "" ==> !IsSpace(t.suffix[|t.suffix| - 1]))
  }

  /** The template alone decides whether the text has whitespace at an end. */
  lemma EndsOfDecomposition(text: string, t: Template, minus: bool, digits: string)
    requires Reads(text, t, minus, digits)
    ensures text != "" && (Trimmed(text) <==> WellFormed(t))
  {
    var body := digits + t.suffix;
    assert text[0] == if t.prefix != "" then t.prefix[0] else if minus then '-' else digits[0];
    assert text[|text| - 1] == body[|body| - 1];
    assert body[|body| - 1] == if t.suffix != "" then t.suffix[|t.suffix| - 1] else digits[|digits| - 1];
    assert IsDigit(digits[0]) && IsDigit(digits[|digits| - 1]);
  }

  lemma ParsedTemplateIsWellFormed(value: string)
    requires ParseIdentifier(value).Some?
    ensures WellFormed(ParseIdentifier(value).value.template)
  {
    var text := Strip(value);
    StripTrims(value);
    ParsedCanBeDecomposed(text);
    var t, minus, digits :| Reads(text, t, minus, digits);
    ParseFindsTheDecomposition(text, t, minus, digits);
    EndsOfDecomposition(text, t, minus, digits);
  }

  lemma NumeralDenotes(n: nat, width: Option<nat>)
    ensures ParseNat(Numeral(n, width)) == n
  {
    ParseDecimal(n);
    if width.Some? { ParseZeroFill(n, width.value); }
  }

  /** Round trip: a written identifier is read back as its template, its number and its digits' width. */
  lemma FormatRoundTrip(t: Template, number: int, width: Option<nat>)
    requires WellFormed(t)
    ensures var text := Format(t, number, width);
      && Trimmed(text) && text != ""
      && ParseIdentifier(text) == Some(Parsed(text, t, number, |Numeral(Magnitude(number), width)|))
  {
    var digits, text := Numeral(Magnitude(number), width), Format(t, number, width);
    assert Reads(text, t, number < 0, digits);
    EndsOfDecomposition(text, t, number < 0, digits);
    NumeralDenotes(Magnitude(number), width);
    StripIdentity(text);
    ParseFindsTheDecomposition(text, t, number < 0, digits);
  }
}
