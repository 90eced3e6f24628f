/** ASCII text: whitespace, digit runs, decimal numerals. */
module Text {

  predicate IsDigit(c: char) { '0' <= c <= '9' }

  /** The characters `str.strip` removes, below 128. */
  predicate IsSpace(c: char) {
    var n := c as int;
    n == 32 || 9 <= n <= 13 || 28 <= n <= 31
  }

  ghost predicate All(s: string, p: char -> bool) {
    forall i :: 0 <= i < |s| ==> p(s[i])
  }

  /** The length of the longest prefix of `s` whose characters all satisfy `p`. */
  function Run(s: string, p: char -> bool): (n: nat)
    ensures n <= |s| && All(s[..n], p)
    ensures n < |s| ==> !p(s[n])
  {
    if s == "" || !p(s[0]) then 0
    else
      var n := 1 + Run(s[1..], p);
      assert s[..n] == [s[0]] + s[1..][..n - 1];
      n
  }

  /** A run ends exactly where the predicate first fails. */
  lemma RunLength(a: string, b: string, p: char -> bool)
    requires All(a, p) && (b == "" || !p(b[0]))
    ensures Run(a + b, p) == |a|
  {
    var s, n := a + b, Run(a + b, p);
    assert forall i :: 0 <= i < |a| ==> s[i] == a[i];
    assert b != "" ==> s[|a|] == b[0];
  }

  // --- str.strip --------------------------------------------------------------

  function StripLeft(s: string): (r: string) {
    s[Run(s, IsSpace)..]
  }

  function StripRight(s: string): (r: string)
    ensures r <= s
    ensures r != "" ==> !IsSpace(r[|r| - 1])
    ensures forall i :: |r| <= i < |s| ==> IsSpace(s[i])
  {
    if s != "" && IsSpace(s[|s| - 1]) then StripRight(s[..|s| - 1]) else s
  }

  function Strip(s: string): (r: string) {
    StripRight(StripLeft(s))
  }

  /** No whitespace at either end. */
  predicate Trimmed(s: string) {
    s != "" ==> !IsSpace(s[0]) && !IsSpace(s[|s| - 1])
  }

  lemma StripTrims(s: string)
    ensures Trimmed(Strip(s))
  {
    var l, r := StripLeft(s), Strip(s);
    if r != "" { assert r[0] == l[0]; }
  }

  lemma StripIdentity(s: string)
    requires Trimmed(s)
    ensures Strip(s) == s
  {
    if s != "" { assert Run(s, IsSpace) == 0; }
  }

  /** m is s without the spaces around it. */
  ghost predicate IsMiddle(s: string, u: string, m: string, v: string) {
    s == u + m + v && All(u, IsSpace) && All(v, IsSpace) && Trimmed(m)
  }

  /** What is stripped are the spaces at both ends, and all of them. */
  lemma StripIsTheMiddle(s: string, m: string)
    ensures Strip(s) == m <==> exists u, v :: IsMiddle(s, u, m, v)
  {
    StripLeavesMiddle(s);
    hide IsSpace, Strip;
    forall u, v | IsMiddle(s, u, m, v) ensures Strip(s) == m { MiddleIsStripped(u, m, v); }
  }

  lemma StripLeavesMiddle(s: string)
    ensures exists u, v :: IsMiddle(s, u, Strip(s), v)
  {
    StripTrims(s);
    hide IsSpace, Trimmed;
    var l, m := StripLeft(s), Strip(s);
    var n, k := |s| - |l|, |m|;
    var u, v := s[..n], l[k..];
    assert l == s[n..] && l == m + v;
    assert s == u + l;
    assert s == u + m + v;
    assert IsMiddle(s, u, m, v);
  }

  lemma MiddleIsStripped(u: string, m: string, v: string)
    requires All(u, IsSpace) && All(v, IsSpace) && Trimmed(m)
    ensures Strip(u + m + v) == m
  {
    hide IsSpace;
    var s := u + m + v;
    assert s == u + (m + v);
    if m == "" {
      RunLength(s, "", IsSpace);
      assert s + "" == s;
    } else {
      RunLength(u, m + v, IsSpace);
      assert StripLeft(s) == m + v;
      StripRightDrops(m, v);
    }
  }

  /** Something other than spaces. */
  ghost predicate HasText(s: string) { exists i :: 0 <= i < |s| && s[i] !in SPACES }

  lemma BlankIffNoText(s: string)
    ensures Strip(s) == "" <==> !HasText(s)
  {
    StripIsTheMiddle(s, "");
    forall i | 0 <= i < |s| ensures IsSpace(s[i]) <==> s[i] in SPACES { SpacesAreListed(s[i]); }
    hide IsSpace, Strip;
    if u, v :| IsMiddle(s, u, "", v) {
      assert s == u + v;
    }
    if All(s, IsSpace) {
      assert s + "" + "" == s;
      assert IsMiddle(s, s, "", "");
    }
  }

  lemma {:induction false} StripRightDrops(m: string, v: string)
    requires m != "" && !IsSpace(m[|m| - 1]) && All(v, IsSpace)
    ensures StripRight(m + v) == m
    decreases |v|
  {
    hide IsSpace;
    var s := m + v;
    if v == "" {
      assert s == m;
    } else {
      assert s[|s| - 1] == v[|v| - 1] && s[..|s| - 1] == m + v[..|v| - 1];
      StripRightDrops(m, v[..|v| - 1]);
    }
  }

  // --- int(text), str(number), zfill ------------------------------------------

  function DigitValue(c: char): (d: nat)
    requires IsDigit(c)
    ensures d < 10
  {
    c as int - '0' as int
  }

  function DigitChar(d: nat): (c: char)
    requires d < 10
    ensures IsDigit(c) && DigitValue(c) == d
  {
    ('0' as int + d) as char
  }

  function ParseNat(digits: string): (n: nat)
    requires All(digits, IsDigit)
  {
    if digits == "" then 0
    else 10 * ParseNat(digits[..|digits| - 1]) + DigitValue(digits[|digits| - 1])
  }

  /** `str(n)` */
  function Decimal(n: nat): (s: string)
    ensures s != "" && All(s, IsDigit)
    ensures s[0] == '0' ==> n == 0
  {
    if n < 10 then [DigitChar(n)] else Decimal(n / 10) + [DigitChar(n % 10)]
  }

  function Zeros(k: nat): (s: string)
    ensures |s| == k && All(s, IsDigit)
  {
    seq(k, _ => '0')
  }

  /** `s.zfill(w)` of a string of digits */
  function ZeroFill(s: string, w: nat): (r: string)
    requires All(s, IsDigit)
    ensures All(r, IsDigit) && |r| == if |s| < w then w else |s|
  {
    if |s| < w then Zeros(w - |s|) + s else s
  }

  lemma {:induction false} ParseDecimal(n: nat)
    ensures ParseNat(Decimal(n)) == n
  {
    if n >= 10 {
      var s := Decimal(n / 10);
      assert (s + [DigitChar(n % 10)])[..|s|] == s;
      ParseDecimal(n / 10);
    } else {
      assert ParseNat([DigitChar(n)][..0]) == 0;
    }
  }

  lemma {:induction false} ParseZeros(k: nat, s: string)
    requires All(s, IsDigit)
    ensures ParseNat(Zeros(k) + s) == ParseNat(s)
  {
    var t := Zeros(k) + s;
    if s != "" {
      assert t[..|t| - 1] == Zeros(k) + s[..|s| - 1];
      ParseZeros(k, s[..|s| - 1]);
    } else if k > 0 {
      assert t == Zeros(k);
      assert t[..k - 1] == Zeros(k - 1) + "";
      ParseZeros(k - 1, "");
    }
  }

  /** A zero-filled numeral still denotes its number. */
  lemma ParseZeroFill(n: nat, w: nat)
    ensures ParseNat(ZeroFill(Decimal(n), w)) == n
  {
    ParseDecimal(n);
    if |Decimal(n)| < w { ParseZeros(w - |Decimal(n)|, Decimal(n)); }
  }

  /** Longer numerals denote larger numbers. */
  lemma {:induction false} DecimalLengthMonotone(m: nat, n: nat)
    requires m <= n
    ensures |Decimal(m)| <= |Decimal(n)|
  {
    if m >= 10 { DecimalLengthMonotone(m / 10, n / 10); }
  }

  // --- string order -----------------------------------------------------------

  /** Python's `<` on strings. */
  predicate Less(a: string, b: string) {
    b != "" && (a == "" || a[0] < b[0] || (a[0] == b[0] && Less(a[1..], b[1..])))
  }

  lemma {:induction false} LessIsTotal(a: string, b: string)
    ensures a == b || Less(a, b) || Less(b, a)
    ensures !(Less(a, b) && Less(b, a)) && !Less(a, a)
  {
    if a != "" && b != "" {
      LessIsTotal(a[1..], b[1..]);
      assert a == [a[0]] + a[1..] && b == [b[0]] + b[1..];
    }
    if a != "" { LessIsTotal(a[1..], a[1..]); }
  }

  lemma {:induction false} LessIsTransitive(a: string, b: string, c: string)
    requires Less(a, b) && Less(b, c)
    ensures Less(a, c)
  {
    if a != "" && a[0] == b[0] && b[0] == c[0] {
      LessIsTransitive(a[1..], b[1..], c[1..]);
    }
  }

  // --- the letters, digits and spaces one by one ----------------------------------------------

  const CAPITALS := "ABCDEFGHIJKLMNOPQRSTUVWXYZ"
  const SMALL := "abcdefghijklmnopqrstuvwxyz"
  const DIGITS := "0123456789"
  const SPACES := " \t\n\U{b}\U{c}\r\U{1c}\U{1d}\U{1e}\U{1f}"

  lemma CapitalAt(k: nat)
    requires k < |CAPITALS|
    ensures |CAPITALS| == 26 && CAPITALS[k] as int == 'A' as int + k
  {
  }

  lemma SmallAt(k: nat)
    requires k < |SMALL|
    ensures |SMALL| == 26 && SMALL[k] as int == 'a' as int + k
  {
  }

  lemma CapitalsAreListed(c: char)
    ensures c in CAPITALS <==> 'A' <= c <= 'Z'
  {
    if 'A' <= c <= 'Z' { CapitalAt(c as int - 'A' as int); }
  }

  lemma SmallAreListed(c: char)
    ensures c in SMALL <==> 'a' <= c <= 'z'
  {
    if 'a' <= c <= 'z' { SmallAt(c as int - 'a' as int); }
  }

  lemma DigitsAreListed(c: char)
    ensures c in DIGITS <==> '0' <= c <= '9'
  {
    if '0' <= c <= '9' { assert DIGITS[c as int - '0' as int] as int == c as int; }
  }

  lemma SpacesAreListed(c: char)
    ensures IsSpace(c) <==> c in SPACES
  {
  }

  /** u is c, as a capital if c is a small letter. */
  ghost predicate IsUpperOf(c: char, u: char) {
    if c in SMALL then exists k :: 0 <= k < 26 && c == SMALL[k] && u == CAPITALS[k] else u == c
  }

  ghost predicate IsUpperText(s: string, t: string) {
    |s| == |t| && forall i :: 0 <= i < |s| ==> IsUpperOf(s[i], t[i])
  }

  lemma UpperOfSmall(c: char, u: char)
    requires c in SMALL
    ensures IsUpperOf(c, u) <==> u as int == c as int - 32
  {
    var k :| 0 <= k < |SMALL| && SMALL[k] == c;
    CapitalAt(k);
    SmallAt(k);
    forall j | 0 <= j < 26 && c == SMALL[j] ensures j == k { SmallAt(j); }
  }

  lemma UpperCaseIff(s: string, t: string)
    ensures UpperCase(s) == t <==> IsUpperText(s, t)
  {
    forall i | 0 <= i < |s| && |t| == |s| ensures IsUpperOf(s[i], t[i]) <==> UpperCase(s)[i] == t[i] {
      UpperCaseAt(s, i, t[i]);
    }
    hide IsUpperOf;
  }

  lemma UpperCaseAt(s: string, i: nat, u: char)
    requires i < |s|
    ensures IsUpperOf(s[i], u) <==> UpperCase(s)[i] == u
  {
    SmallAreListed(s[i]);
    if s[i] in SMALL { UpperOfSmall(s[i], u); }
  }

  // --- Python's order by the first difference ------------------------------------------------------

  /** The texts agree up to place k, where a ends or has the smaller character. */
  ghost predicate IsLessAt(a: string, b: string, k: int) {
    && 0 <= k <= |a| && k < |b| && a[..k] == b[..k] && (k == |a| || a[k] < b[k])
  }

  lemma {:induction false} LessIffFirstDifference(a: string, b: string)
    ensures Less(a, b) <==> exists k :: IsLessAt(a, b, k)
  {
    if a == "" || b == "" || a[0] != b[0] {
      assert a[..0] == b[..0];
      if Less(a, b) { assert IsLessAt(a, b, 0); }
      forall k | IsLessAt(a, b, k) ensures Less(a, b) { FirstCharacters(a, b, k); }
    } else {
      LessIffFirstDifference(a[1..], b[1..]);
      if k :| IsLessAt(a[1..], b[1..], k) {
        LessAtNext(a, b, k);
      }
      if k :| IsLessAt(a, b, k) {
        assert k > 0;
        LessAtNext(a, b, k - 1);
      }
    }
  }

  lemma FirstCharacters(a: string, b: string, k: int)
    requires IsLessAt(a, b, k)
    ensures b != "" && (k > 0 ==> a != "" && a[0] == b[0])
  {
    if k > 0 { assert a[..k][0] == b[..k][0]; }
  }

  lemma LessAtNext(a: string, b: string, k: int)
    requires a != "" && b != "" && a[0] == b[0] && k >= 0
    ensures IsLessAt(a[1..], b[1..], k) <==> IsLessAt(a, b, k + 1)
  {
    if k < |a| && k < |b| {
      assert a[..k + 1] == [a[0]] + a[1..][..k] && b[..k + 1] == [b[0]] + b[1..][..k];
      assert a[1..][..k] == a[..k + 1][1..] && b[1..][..k] == b[..k + 1][1..];
    }
  }

  function UpperCase(s: string): (r: string)
    ensures |r| == |s|
  {
    seq(|s|, i requires 0 <= i < |s| => if 'a' <= s[i] <= 'z' then (s[i] as int - 32) as char else s[i])
  }
}
