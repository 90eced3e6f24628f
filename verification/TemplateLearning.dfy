/** What the template engine learns, spelled out on the characters of its sources and targets. */
module TemplateLearning {
  import opened Collections
  import opened Text
  import opened TemplateEvidence

  // --- the words of a text ------------------------------------------------------------------

  ghost predicate IsWordChar(c: char) { c in CAPITALS || c in SMALL || c in DIGITS }

  ghost predicate IsWord(w: string) {
    w != "" && forall i :: 0 <= i < |w| ==> IsWordChar(w[i])
  }

  ghost predicate IsGap(g: string) {
    forall i :: 0 <= i < |g| ==> !IsWordChar(g[i])
  }

  /** A gap, then every word with the gap after it. */
  function Spell(gaps: seq<string>, words: seq<string>): string
    requires |gaps| == |words| + 1
  {
    if words == [] then gaps[0] else gaps[0] + (words[0] + Spell(gaps[1..], words[1..]))
  }

  ghost predicate IsSpelling(text: string, gaps: seq<string>, words: seq<string>) {
    && |gaps| == |words| + 1
    && (forall w :: w in words ==> IsWord(w))
    && (forall g :: g in gaps ==> IsGap(g))
    && (forall k :: 0 < k < |words| ==> gaps[k] != "")
    && text == Spell(gaps, words)
  }

  ghost predicate Spells(text: string, words: seq<string>) {
    exists gaps :: IsSpelling(text, gaps, words)
  }

  lemma WordCharIsAlphanumeric(c: char)
    ensures IsWordChar(c) <==> IsAlphanumeric(c)
  {
    CapitalsAreListed(c);
    SmallAreListed(c);
    DigitsAreListed(c);
  }

  lemma WordRun(w: string)
    ensures IsWord(w) <==> w != "" && All(w, IsAlphanumeric)
    ensures IsGap(w) <==> forall i :: 0 <= i < |w| ==> !IsAlphanumeric(w[i])
  {
    forall c ensures IsWordChar(c) <==> IsAlphanumeric(c) { WordCharIsAlphanumeric(c); }
  }

  lemma {:induction false} GapIsSkipped(g: string, s: string)
    requires IsGap(g)
    ensures Tokenize(g + s) == Tokenize(s)
  {
    if g == "" {
      assert g + s == s;
    } else {
      WordRun(g);
      WordRun(g[1..]);
      assert (g + s)[1..] == g[1..] + s && (g + s)[0] == g[0];
      hide IsAlphanumeric;
      assert Run(g + s, IsAlphanumeric) == 0;
      GapIsSkipped(g[1..], s);
    }
  }

  lemma WordIsTaken(w: string, s: string)
    requires IsWord(w) && (s == "" || !IsAlphanumeric(s[0]))
    ensures Tokenize(w + s) == [w] + Tokenize(s)
  {
    WordRun(w);
    hide IsAlphanumeric;
    RunLength(w, s, IsAlphanumeric);
    assert (w + s)[..|w|] == w && (w + s)[|w|..] == s;
  }

  /** The tokens of a spelled text are its words. */
  lemma {:induction false} TokensOfSpelling(gaps: seq<string>, words: seq<string>)
    requires |gaps| == |words| + 1 && IsSpelling(Spell(gaps, words), gaps, words)
    ensures Tokenize(Spell(gaps, words)) == words
    decreases |words|
  {
    assert gaps[0] in gaps;
    if words == [] {
      GapIsSkipped(gaps[0], "");
      assert gaps[0] + "" == gaps[0];
    } else {
      var rest := Spell(gaps[1..], words[1..]);
      assert words == [words[0]] + words[1..] && gaps == [gaps[0]] + gaps[1..];
      assert IsWord(words[0]) && IsGap(gaps[1..][0]);
      WordRun(gaps[1..][0]);
      hide IsWord, IsGap, IsAlphanumeric;
      TokensOfSpelling(gaps[1..], words[1..]);
      WordIsTaken(words[0], rest);
      GapIsSkipped(gaps[0], words[0] + rest);
    }
  }

  lemma {:induction false} TextIsSpelled(s: string)
    ensures Spells(s, Tokenize(s))
    decreases |s|
  {
    if s == "" {
      assert IsSpelling(s, [""], []);
    } else {
      var n := Run(s, IsAlphanumeric);
      var m := if n == 0 then 1 else n;
      FirstStep(s, n, m);
      hide Tokenize, Run, IsAlphanumeric, IsSpelling;
      TextIsSpelled(s[m..]);
      assert s == s[..m] + s[m..] && s[..1] == [s[0]];
      var gaps :| IsSpelling(s[m..], gaps, Tokenize(s[m..]));
      if n == 0 {
        PrependToGap(s[0], s[1..], gaps, Tokenize(s[1..]));
      } else {
        PrependWord(s[..n], s[n..], gaps, Tokenize(s[n..]));
      }
    }
  }

  lemma PrependToGap(c: char, s: string, gaps: seq<string>, words: seq<string>)
    requires IsSpelling(s, gaps, words) && !IsAlphanumeric(c)
    ensures Spells([c] + s, words)
  {
    WordCharIsAlphanumeric(c);
    var longer := [[c] + gaps[0]] + gaps[1..];
    assert gaps[0] in gaps && longer[1..] == gaps[1..];
    hide IsWordChar, IsWord, IsAlphanumeric;
    assert [c] + s == Spell(longer, words);
    hide Spell;
    assert IsGap(longer[0]);
    forall k | 0 < k < |longer| ensures longer[k] == gaps[k] && longer[k] in gaps { }
    assert IsSpelling([c] + s, longer, words);
  }

  lemma PrependWord(w: string, s: string, gaps: seq<string>, words: seq<string>)
    requires IsSpelling(s, gaps, words) && w != "" && All(w, IsAlphanumeric) && (s == "" || !IsAlphanumeric(s[0]))
    ensures Spells(w + s, [w] + words)
  {
    WordRun(w);
    if words != [] { FirstGapIsReal(s, gaps, words); }
    hide IsWord, IsAlphanumeric;
    var longer, all := [""] + gaps, [w] + words;
    assert longer[1..] == gaps && all[1..] == words && "" + (w + s) == w + s;
    assert w + s == Spell(longer, all);
    assert forall g :: g in longer ==> IsGap(g);
    hide IsGap, Spell;
    forall k | 0 < k < |all| ensures longer[k] != "" { assert longer[k] == gaps[k - 1]; }
    assert IsSpelling(w + s, longer, all);
  }

  /** A text that starts with no word starts with a gap. */
  lemma FirstGapIsReal(s: string, gaps: seq<string>, words: seq<string>)
    requires IsSpelling(s, gaps, words) && words != [] && (s == "" || !IsAlphanumeric(s[0]))
    ensures gaps[0] != ""
  {
    assert words[0] in words;
    WordRun(words[0]);
  }

  /** `_tokenize`: every text has exactly one list of words, its tokens. */
  lemma TokensAreTheWords(text: string, words: seq<string>)
    ensures Spells(text, words) <==> Tokenize(text) == words
  {
    TextIsSpelled(text);
    if gaps :| IsSpelling(text, gaps, words) { TokensOfSpelling(gaps, words); }
  }

  // --- the words of a source: those of its columns, in order -------------------------------------

  ghost predicate ColumnHas(v: Option<string>, words: seq<string>) {
    if v.None? then words == [] else Spells(v.value, words)
  }

  /** The columns' words one after the other; a null has none. */
  ghost predicate SourceSpells(source: Source, words: seq<string>) {
    if source == [] then words == []
    else exists k :: 0 <= k <= |words| && ColumnHas(source[0], words[..k]) && SourceSpells(source[1..], words[k..])
  }

  function ColumnTokens(v: Option<string>): seq<string> {
    if v.None? then [] else Tokenize(v.value)
  }

  function AllTokens(source: Source): seq<string> {
    if source == [] then [] else ColumnTokens(source[0]) + AllTokens(source[1..])
  }

  lemma {:induction false} TokensAroundGap(a: string, c: char, b: string)
    requires !IsAlphanumeric(c)
    ensures Tokenize(a + [c] + b) == Tokenize(a) + Tokenize(b)
    decreases |a|
  {
    if a == "" {
      GapFirst(c, b);
      assert a + [c] + b == [c] + b;
    } else {
      hide Tokenize, Run, IsAlphanumeric;
      var n := Run(a, IsAlphanumeric);
      var m := if n == 0 then 1 else n;
      TokensAroundGap(a[m..], c, b);
      RunBeforeGap(a, c, b);
      SlicesAround(a, c, b, m);
      FirstStep(a, n, m);
      FirstStep(a + [c] + b, n, m);
      Associate(if n == 0 then [] else [a[..n]], Tokenize(a[m..]), Tokenize(b));
    }
  }

  lemma Associate(x: seq<string>, y: seq<string>, z: seq<string>)
    ensures x + y + z == x + (y + z)
  {
  }

  lemma FirstStep(s: string, n: nat, m: nat)
    requires s != "" && n == Run(s, IsAlphanumeric) && m == if n == 0 then 1 else n
    ensures m <= |s| && Tokenize(s) == (if n == 0 then [] else [s[..n]]) + Tokenize(s[m..])
  {
  }

  lemma GapFirst(c: char, b: string)
    requires !IsAlphanumeric(c)
    ensures Tokenize([c] + b) == Tokenize(b)
  {
    hide IsAlphanumeric;
    assert ([c] + b)[1..] == b;
  }

  lemma SlicesAround(a: string, c: char, b: string, m: nat)
    requires m <= |a|
    ensures var s := a + [c] + b; s[..m] == a[..m] && s[m..] == a[m..] + [c] + b
  {
  }

  lemma RunBeforeGap(a: string, c: char, b: string)
    requires !IsAlphanumeric(c)
    ensures Run(a + [c] + b, IsAlphanumeric) == Run(a, IsAlphanumeric)
  {
    hide IsAlphanumeric;
    var n := Run(a, IsAlphanumeric);
    var rest := a[n..] + [c] + b;
    assert a + [c] + b == a[..n] + rest;
    RunLength(a[..n], rest, IsAlphanumeric);
  }

  lemma SpaceIsNoWordChar(c: char)
    requires IsSpace(c)
    ensures !IsAlphanumeric(c)
  {
  }

  /** Stripping loses no token. */
  lemma TokensOfStripped(s: string)
    ensures Tokenize(Strip(s)) == Tokenize(s)
  {
    StripIsTheMiddle(s, Strip(s));
    var u, v :| IsMiddle(s, u, Strip(s), v);
    hide Strip, IsSpace;
    SpacesBetween(u, Strip(s), v);
  }

  lemma SpacesBetween(u: string, m: string, v: string)
    requires All(u, IsSpace) && All(v, IsSpace)
    ensures Tokenize(u + m + v) == Tokenize(m)
  {
    SpacesAreGap(u);
    SpacesAreGap(v);
    hide IsSpace, IsAlphanumeric;
    assert u + m + v == u + (m + v);
    GapIsSkipped(u, m + v);
    if v == "" {
      assert m + v == m;
    } else {
      assert v == [v[0]] + v[1..] && m + v == m + [v[0]] + v[1..];
      WordRun(v);
      WordRun(v[1..]);
      TokensAroundGap(m, v[0], v[1..]);
      GapIsSkipped(v[1..], "");
      assert v[1..] + "" == v[1..];
    }
  }

  lemma SpacesAreGap(u: string)
    requires All(u, IsSpace)
    ensures IsGap(u)
  {
    forall i | 0 <= i < |u| ensures !IsAlphanumeric(u[i]) { SpaceIsNoWordChar(u[i]); }
    WordRun(u);
  }

  /** `_combined_source_text` changes nothing about the words: they are those of every column. */
  lemma {:induction false} TokensOfColumns(source: Source)
    ensures Tokenize(Join(" ", FilterMap(source, NonBlank))) == AllTokens(source)
  {
    if source != [] {
      TokensOfColumns(source[1..]);
      var parts := FilterMap(source[1..], NonBlank);
      ColumnIsJoined(source[0]);
      hide Strip, Tokenize;
      if NonBlank(source[0]).Some? { TokensOfJoin(NonBlank(source[0]).value, parts); }
    }
  }

  lemma ColumnIsJoined(v: Option<string>)
    ensures ColumnTokens(v) == if NonBlank(v).Some? then Tokenize(NonBlank(v).value) else []
  {
    if v.Some? { TokensOfStripped(v.value); }
    hide Strip;
  }

  lemma TokensOfJoin(part: string, parts: seq<string>)
    ensures Tokenize(Join(" ", [part] + parts)) == Tokenize(part) + Tokenize(Join(" ", parts))
  {
    if parts != [] {
      TokensAroundGap(part, ' ', Join(" ", parts));
      assert ([part] + parts)[1..] == parts;
    } else {
      assert [part] + parts == [part];
    }
  }

  lemma TokensAreAllTokens(source: Source)
    ensures Tokens(source) == AllTokens(source)
  {
    TokensOfColumns(source);
    TokensOfStripped(Join(" ", FilterMap(source, NonBlank)));
  }

  lemma {:induction false} SpellsAllTokens(source: Source, words: seq<string>)
    ensures SourceSpells(source, words) <==> AllTokens(source) == words
    decreases |source|
  {
    if source != [] {
      hide Tokenize, Spells;
      var own, rest := ColumnTokens(source[0]), AllTokens(source[1..]);
      ColumnSpells(source[0], own);
      SpellsAllTokens(source[1..], rest);
      if own + rest == words { assert words[..|own|] == own && words[|own|..] == rest; }
      if SourceSpells(source, words) {
        var k :| 0 <= k <= |words| && ColumnHas(source[0], words[..k]) && SourceSpells(source[1..], words[k..]);
        ColumnSpells(source[0], words[..k]);
        SpellsAllTokens(source[1..], words[k..]);
        assert words == words[..k] + words[k..];
      }
    }
  }

  lemma ColumnSpells(v: Option<string>, words: seq<string>)
    ensures ColumnHas(v, words) <==> ColumnTokens(v) == words
  {
    if v.Some? { TokensAreTheWords(v.value, words); }
  }

  /** A source has exactly one list of words, its tokens. */
  lemma SourceWordsAreTokens(source: Source, words: seq<string>)
    ensures SourceSpells(source, words) <==> Tokens(source) == words
  {
    TokensAreAllTokens(source);
    SpellsAllTokens(source, words);
  }

  // --- the rendering of words, character by character ---------------------------------------------

  /** y is x in the given case. */
  ghost predicate IsInCase(c: Case, x: char, y: char) {
    match c
    case AsIs => y == x
    case Lower => if x in CAPITALS then exists k :: 0 <= k < 26 && x == CAPITALS[k] && y == SMALL[k] else y == x
    case Upper => IsUpperOf(x, y)
  }

  ghost predicate IsCased(c: Case, word: string, mapped: string) {
    |mapped| == |word| && forall i :: 0 <= i < |word| ==> IsInCase(c, word[i], mapped[i])
  }

  /** Where word k begins, if a delimiter of this length follows every word. */
  function StartOf(words: seq<string>, k: nat, gap: nat): nat
    requires k <= |words|
  {
    if k == 0 then 0 else |words[0]| + gap + StartOf(words[1..], k - 1, gap)
  }

  /** Word k in its case stands at its place. */
  ghost predicate HasWord(core: string, c: Case, delimiter: string, words: seq<string>, k: nat)
    requires k < |words|
  {
    var p := StartOf(words, k, |delimiter|);
    p + |words[k]| <= |core| && IsCased(c, words[k], core[p..p + |words[k]|])
  }

  /** So does the delimiter after word k. */
  ghost predicate HasDelimiter(core: string, delimiter: string, words: seq<string>, k: nat)
    requires k < |words|
  {
    OccursAt(core, delimiter, StartOf(words, k, |delimiter|) + |words[k]|)
  }

  /** The words in one case, with the delimiter between them, and nothing else. */
  ghost predicate IsCore(core: string, c: Case, delimiter: string, words: seq<string>) {
    && words != [] && |core| + |delimiter| == StartOf(words, |words|, |delimiter|)
    && (forall k :: 0 <= k < |words| ==> HasWord(core, c, delimiter, words, k))
    && (forall k :: 0 <= k < |words| - 1 ==> HasDelimiter(core, delimiter, words, k))
  }

  lemma LowerOfCapital(x: char, y: char)
    requires x in CAPITALS
    ensures IsInCase(Lower, x, y) <==> y as int == x as int + 32
  {
    var k :| 0 <= k < |CAPITALS| && CAPITALS[k] == x;
    CapitalAt(k);
    SmallAt(k);
    forall j | 0 <= j < 26 && x == CAPITALS[j] ensures j == k { CapitalAt(j); }
  }

  lemma CasedIffMapped(c: Case, word: string, mapped: string)
    ensures IsCased(c, word, mapped) <==> MapCase(c, word) == mapped
  {
    forall i | 0 <= i < |word| && |mapped| == |word|
      ensures IsInCase(c, word[i], mapped[i]) <==> MapCase(c, word)[i] == mapped[i]
    {
      CharIffMapped(c, word, i, mapped[i]);
    }
    hide IsInCase;
  }

  lemma CharIffMapped(c: Case, word: string, i: nat, y: char)
    requires i < |word|
    ensures IsInCase(c, word[i], y) <==> MapCase(c, word)[i] == y
  {
    var x := word[i];
    CapitalsAreListed(x);
    SmallAreListed(x);
    if c == Lower && x in CAPITALS { LowerOfCapital(x, y); }
    if c == Upper && x in SMALL { UpperOfSmall(x, y); }
  }

  // --- and it is what the engine writes --------------------------------------------------------------

  lemma {:induction false} CoreIffJoined(core: string, c: Case, delimiter: string, words: seq<string>)
    requires words != []
    ensures IsCore(core, c, delimiter, words) <==> Join(delimiter, MapCases(c, words)) == core
    decreases |words|
  {
    var mapped := MapCases(c, words);
    hide IsCore, MapCase;
    if |words| == 1 {
      OneWordCore(core, c, delimiter, words);
    } else {
      var n, g := |words[0]|, |delimiter|;
      var joined := Join(delimiter, MapCases(c, words[1..]));
      assert mapped[1..] == MapCases(c, words[1..]);
      if n + g <= |core| {
        CoreIffJoined(core[n + g..], c, delimiter, words[1..]);
        CoreUnfolds(core, c, delimiter, words);
        CoreSplits(core, mapped[0], delimiter, joined);
      } else {
        ShortIsNoCore(core, c, delimiter, words);
      }
    }
  }

  lemma CoreSplits(core: string, first: string, delimiter: string, rest: string)
    requires |first| + |delimiter| <= |core|
    ensures core == first + delimiter + rest <==>
      && core[..|first|] == first && core[|first|..|first| + |delimiter|] == delimiter
      && core[|first| + |delimiter|..] == rest
  {
    var n, m := |first|, |first| + |delimiter|;
    assert core == core[..n] + core[n..m] + core[m..];
    if core == first + delimiter + rest {
      assert core[..n] == first && core[n..m] == delimiter && core[m..] == rest;
    }
  }

  lemma OneWordCore(core: string, c: Case, delimiter: string, words: seq<string>)
    requires |words| == 1
    ensures IsCore(core, c, delimiter, words) <==> MapCase(c, words[0]) == core
  {
    CasedIffMapped(c, words[0], core);
    assert StartOf(words, 0, |delimiter|) == 0 && StartOf(words, 1, |delimiter|) == |words[0]| + |delimiter|;
    if |core| == |words[0]| {
      assert core[0..0 + |words[0]|] == core;
      assert HasWord(core, c, delimiter, words, 0) <==> IsCased(c, words[0], core);
    }
    hide IsCased, MapCase, HasWord;
  }

  lemma ShortIsNoCore(core: string, c: Case, delimiter: string, words: seq<string>)
    requires |words| > 1 && |core| < |words[0]| + |delimiter|
    ensures !IsCore(core, c, delimiter, words)
  {
    assert StartOf(words, 0, |delimiter|) == 0;
    hide HasWord;
    assert !HasDelimiter(core, delimiter, words, 0);
  }

  /** The first word and delimiter, then the rest. */
  lemma CoreUnfolds(core: string, c: Case, delimiter: string, words: seq<string>)
    requires |words| > 1 && |words[0]| + |delimiter| <= |core|
    ensures var n, m := |words[0]|, |words[0]| + |delimiter|;
      IsCore(core, c, delimiter, words) <==>
        core[..n] == MapCase(c, words[0]) && core[n..m] == delimiter && IsCore(core[m..], c, delimiter, words[1..])
  {
    var n, m, rest := |words[0]|, |words[0]| + |delimiter|, words[1..];
    CasedIffMapped(c, words[0], core[..n]);
    assert StartOf(words, 0, |delimiter|) == 0;
    assert HasWord(core, c, delimiter, words, 0) <==> core[..n] == MapCase(c, words[0]);
    assert HasDelimiter(core, delimiter, words, 0) <==> core[n..m] == delimiter;
    forall k | 0 < k < |words| ensures ShiftsTo(core, c, delimiter, words, k) {
      PlacesShift(core, c, delimiter, words, k);
    }
    assert StartOf(words, |words|, |delimiter|) == m + StartOf(rest, |rest|, |delimiter|);
    hide HasWord, HasDelimiter, MapCase, StartOf;
    PlacesUnfold(core, c, delimiter, words);
  }

  lemma PlacesUnfold(core: string, c: Case, delimiter: string, words: seq<string>)
    requires |words| > 1 && |words[0]| + |delimiter| <= |core|
    requires forall k :: 0 < k < |words| ==> ShiftsTo(core, c, delimiter, words, k)
    ensures var m, rest := |words[0]| + |delimiter|, words[1..];
      && ((forall k :: 0 <= k < |words| ==> HasWord(core, c, delimiter, words, k)) <==>
           HasWord(core, c, delimiter, words, 0)
           && forall k :: 0 <= k < |rest| ==> HasWord(core[m..], c, delimiter, rest, k))
      && ((forall k :: 0 <= k < |words| - 1 ==> HasDelimiter(core, delimiter, words, k)) <==>
           HasDelimiter(core, delimiter, words, 0)
           && forall k :: 0 <= k < |rest| - 1 ==> HasDelimiter(core[m..], delimiter, rest, k))
  {
    hide HasWord, HasDelimiter;
    var m, rest := |words[0]| + |delimiter|, words[1..];
    forall k | 0 < k < |words|
      ensures HasWord(core, c, delimiter, words, k) <==> HasWord(core[m..], c, delimiter, rest, k - 1)
      ensures HasDelimiter(core, delimiter, words, k) <==> HasDelimiter(core[m..], delimiter, rest, k - 1)
    {
      assert ShiftsTo(core, c, delimiter, words, k);
    }
    forall k | 0 <= k < |rest|
      ensures HasWord(core, c, delimiter, words, k + 1) <==> HasWord(core[m..], c, delimiter, rest, k)
      ensures HasDelimiter(core, delimiter, words, k + 1) <==> HasDelimiter(core[m..], delimiter, rest, k)
    {
      assert ShiftsTo(core, c, delimiter, words, k + 1);
    }
  }

  /** Word k and the delimiter after it stand where they stand without the first word and delimiter. */
  ghost predicate ShiftsTo(core: string, c: Case, delimiter: string, words: seq<string>, k: nat)
    requires 0 < k < |words| && |words[0]| + |delimiter| <= |core|
  {
    var m, rest := |words[0]| + |delimiter|, words[1..];
    && (HasWord(core, c, delimiter, words, k) <==> HasWord(core[m..], c, delimiter, rest, k - 1))
    && (HasDelimiter(core, delimiter, words, k) <==> HasDelimiter(core[m..], delimiter, rest, k - 1))
  }

  lemma PlacesShift(core: string, c: Case, delimiter: string, words: seq<string>, k: nat)
    requires 0 < k < |words| && |words[0]| + |delimiter| <= |core|
    ensures ShiftsTo(core, c, delimiter, words, k)
  {
    hide IsCased;
    var m, rest := |words[0]| + |delimiter|, words[1..];
    var p, n := StartOf(rest, k - 1, |delimiter|), |words[k]|;
    assert StartOf(words, k, |delimiter|) == m + p && rest[k - 1] == words[k];
    if m + p + n <= |core| {
      assert core[m..][p..p + n] == core[m + p..m + p + n];
      if m + p + n + |delimiter| <= |core| {
        assert core[m..][p + n..p + n + |delimiter|] == core[m + p + n..m + p + n + |delimiter|];
      }
    }
  }

  // --- learning, from the raw observations to the candidate ------------------------------------------

  /** Prefix, rendered words and suffix. */
  ghost predicate Renders(text: string, h: Hypothesis, words: seq<string>) {
    exists core :: IsCore(core, h.letterCase, h.delimiter, words) && text == h.prefix + core + h.suffix
  }

  /** The rendered words occur nowhere earlier than after the prefix. */
  ghost predicate RendersFirst(text: string, h: Hypothesis, words: seq<string>) {
    exists core :: IsCore(core, h.letterCase, h.delimiter, words) && text == h.prefix + core + h.suffix
                   && forall i: nat :: i < |h.prefix| ==> !OccursAt(text, core, i)
  }

  lemma CoreIsUnique(core: string, c: Case, delimiter: string, source: Source)
    requires Tokens(source) != []
    ensures IsCore(core, c, delimiter, Tokens(source)) <==> core == Core(c, delimiter, source)
  {
    CoreIffJoined(core, c, delimiter, Tokens(source));
  }

  lemma RendersIffApplied(text: string, h: Hypothesis, source: Source)
    requires Tokens(source) != []
    ensures Renders(text, h, Tokens(source)) <==> Apply(h, source) == Some(text)
  {
    hide IsCore, Tokens, Core;
    var core := Core(h.letterCase, h.delimiter, source);
    CoreIsUnique(core, h.letterCase, h.delimiter, source);
    if Renders(text, h, Tokens(source)) {
      var other :| IsCore(other, h.letterCase, h.delimiter, Tokens(source)) && text == h.prefix + other + h.suffix;
      CoreIsUnique(other, h.letterCase, h.delimiter, source);
    }
  }

  lemma RendersFirstIffSuggested(text: string, h: Hypothesis, source: Source)
    requires Tokens(source) != [] && h.delimiter in DELIMITERS
    ensures RendersFirst(text, h, Tokens(source)) <==> SuggestedBy(h, Pair(source, text))
  {
    assert h.letterCase == AsIs || h.letterCase == Lower || h.letterCase == Upper;
    SuggestedIffFirstOccurrence(h, Pair(source, text));
    hide IsCore, Tokens, Core, SuggestedBy, Find, OccursAt;
    var core := Core(h.letterCase, h.delimiter, source);
    CoreIsUnique(core, h.letterCase, h.delimiter, source);
    if text == h.prefix + core + h.suffix { FirstIffFound(text, core, h.prefix, h.suffix); }
    if RendersFirst(text, h, Tokens(source)) {
      var other :| IsCore(other, h.letterCase, h.delimiter, Tokens(source)) && text == h.prefix + other + h.suffix
                   && forall i: nat :: i < |h.prefix| ==> !OccursAt(text, other, i);
      CoreIsUnique(other, h.letterCase, h.delimiter, source);
    }
  }

  lemma FirstIffFound(text: string, core: string, prefix: string, suffix: string)
    requires text == prefix + core + suffix
    ensures (forall i: nat :: i < |prefix| ==> !OccursAt(text, core, i)) <==> Find(text, core) == Some(|prefix|)
  {
    assert text[|prefix|..|prefix| + |core|] == core;
    assert OccursAt(text, core, |prefix|);
    hide OccursAt;
  }

  /** A row that counts: a target that is not blank, and some word. */
  ghost predicate IsObservation(row: (Source, Option<string>), words: seq<string>) {
    row.1.Some? && words != [] && HasText(row.1.value)
  }

  /** The words of every row. */
  ghost predicate AreRowWords(raw: seq<(Source, Option<string>)>, words: seq<seq<string>>) {
    |words| == |raw| && forall i :: 0 <= i < |raw| ==> SourceSpells(raw[i].0, words[i])
  }

  ghost function Observations(raw: seq<(Source, Option<string>)>, words: seq<seq<string>>): set<nat>
    requires |words| == |raw|
  {
    set i: nat | i < |raw| && IsObservation(raw[i], words[i])
  }

  /** The transformation renders every observation, and one of them nowhere earlier. */
  ghost predicate Explains(h: Hypothesis, raw: seq<(Source, Option<string>)>, words: seq<seq<string>>)
    requires |words| == |raw|
  {
    && h.delimiter in {"", ".", "_", "-", " "}
    && (forall i :: i in Observations(raw, words) ==> Renders(raw[i].1.value, h, words[i]))
    && exists i :: i in Observations(raw, words) && RendersFirst(raw[i].1.value, h, words[i])
  }

  lemma UsableIffObservation(row: (Source, Option<string>), words: seq<string>)
    requires Tokens(row.0) == words
    ensures Usable(row).Some? <==> IsObservation(row, words)
    ensures Usable(row).Some? ==> row.1.Some? && Usable(row) == Some(Pair(row.0, row.1.value))
  {
    hide Tokens, Strip;
    if row.1.Some? { BlankIffNoText(row.1.value); }
  }

  lemma PairsAreObservations(raw: seq<(Source, Option<string>)>, words: seq<seq<string>>)
    requires AreRowWords(raw, words)
    ensures |FilterMap(raw, Usable)| == |Observations(raw, words)|
    ensures forall p :: p in FilterMap(raw, Usable) <==>
      exists i :: i in Observations(raw, words) && p == Pair(raw[i].0, raw[i].1.value)
    ensures forall i :: 0 <= i < |raw| ==> Tokens(raw[i].0) == words[i]
  {
    hide Usable, SourceSpells, IsObservation, Tokens;
    forall i | 0 <= i < |raw|
      ensures Tokens(raw[i].0) == words[i] && (Usable(raw[i]).Some? <==> IsObservation(raw[i], words[i]))
      ensures Usable(raw[i]).Some? ==> raw[i].1.Some? && Usable(raw[i]) == Some(Pair(raw[i].0, raw[i].1.value))
    {
      SourceWordsAreTokens(raw[i].0, words[i]);
      UsableIffObservation(raw[i], words[i]);
    }
    FilterMapCount(raw, Usable, Observations(raw, words));
    forall p ensures p in FilterMap(raw, Usable) <==>
      exists i :: i in Observations(raw, words) && p == Pair(raw[i].0, raw[i].1.value)
    {
      FilterMapMember(raw, Usable, p);
      if x :| x in raw && Usable(x) == Some(p) {
        var i :| 0 <= i < |raw| && raw[i] == x;
        assert i in Observations(raw, words);
      }
      if i :| i in Observations(raw, words) && p == Pair(raw[i].0, raw[i].1.value) { assert raw[i] in raw; }
    }
  }

  /** The two descriptions agree on one row. */
  ghost predicate SaysTheSame(h: Hypothesis, row: (Source, Option<string>), words: seq<string>)
    requires row.1.Some?
  {
    && (Renders(row.1.value, h, words) <==> Apply(h, row.0) == Some(row.1.value))
    && (RendersFirst(row.1.value, h, words) <==> SuggestedBy(h, Pair(row.0, row.1.value)))
  }

  lemma RowSaysTheSame(h: Hypothesis, row: (Source, Option<string>), words: seq<string>)
    requires row.1.Some? && words != [] && Tokens(row.0) == words && h.delimiter in DELIMITERS
    ensures SaysTheSame(h, row, words)
  {
    RendersIffApplied(row.1.value, h, row.0);
    RendersFirstIffSuggested(row.1.value, h, row.0);
  }

  lemma ExplainsIffInSpace(h: Hypothesis, raw: seq<(Source, Option<string>)>, words: seq<seq<string>>)
    requires AreRowWords(raw, words)
    ensures Explains(h, raw, words) <==> InVersionSpace(h, FilterMap(raw, Usable))
  {
    var pairs, at := FilterMap(raw, Usable), Observations(raw, words);
    PairsAreObservations(raw, words);
    hide AreRowWords, Tokens, FilterMap, SaysTheSame, Explains, InVersionSpace;
    if h.delimiter in DELIMITERS {
      forall i | i in at ensures SaysTheSame(h, raw[i], words[i]) { RowSaysTheSame(h, raw[i], words[i]); }
      SpaceOfRows(h, raw, words, pairs);
    } else {
      OtherDelimiterIsUnused(h, raw, words, pairs);
    }
  }

  lemma SpaceOfRows(h: Hypothesis, raw: seq<(Source, Option<string>)>, words: seq<seq<string>>, pairs: seq<Pair>)
    requires |words| == |raw| && h.delimiter in DELIMITERS
    requires forall i :: i in Observations(raw, words) ==> SaysTheSame(h, raw[i], words[i])
    requires forall p :: p in pairs <==>
      exists i :: i in Observations(raw, words) && p == Pair(raw[i].0, raw[i].1.value)
    ensures Explains(h, raw, words) <==> InVersionSpace(h, pairs)
  {
    hide Renders, RendersFirst, Apply, SuggestedBy;
    var at := Observations(raw, words);
    forall i | i in at ensures Pair(raw[i].0, raw[i].1.value) in pairs { }
    if Explains(h, raw, words) {
      var i :| i in at && RendersFirst(raw[i].1.value, h, words[i]);
      assert SuggestedBy(h, Pair(raw[i].0, raw[i].1.value));
    }
  }

  lemma OtherDelimiterIsUnused(h: Hypothesis, raw: seq<(Source, Option<string>)>, words: seq<seq<string>>,
                               pairs: seq<Pair>)
    requires |words| == |raw| && h.delimiter !in DELIMITERS
    ensures !Explains(h, raw, words) && !InVersionSpace(h, pairs)
  {
    hide Observations, Renders, RendersFirst, Apply;
  }

  lemma SuggestedDelimiter(h: Hypothesis, pair: Pair)
    requires SuggestedBy(h, pair)
    ensures h.delimiter in DELIMITERS
  {
  }

  /**
    The whole engine on raw text. It answers with a candidate exactly when there are three observations, the query has
    a word, some case, delimiter, prefix and suffix explain every observation, and all that do render the query's words
    alike. The candidate is that rendering.
  */
  lemma CandidateIffExplained(raw: seq<(Source, Option<string>)>, words: seq<seq<string>>,
                              query: Source, queryWords: seq<string>)
    requires AreRowWords(raw, words) && SourceSpells(query, queryWords)
    ensures var r := Discover(raw, query);
      && (r.status == Candidate <==>
            && |Observations(raw, words)| >= 3 && queryWords != []
            && (exists h :: Explains(h, raw, words)) && RenderAlike(raw, words, queryWords))
      && (r.status == Candidate ==>
            && r.best.Some?
            && forall h :: Explains(h, raw, words) ==> Renders(r.best.value.candidateValue, h, queryWords))
  {
    var pairs := FilterMap(raw, Usable);
    forall h ensures Explains(h, raw, words) <==> InVersionSpace(h, pairs) { ExplainsIffInSpace(h, raw, words); }
    PairsAreObservations(raw, words);
    SourceWordsAreTokens(query, queryWords);
    CandidateIffUnanimous(raw, query);
    hide SourceSpells, Tokens, FilterMap, Renders, Apply, AreRowWords, Discover, InVersionSpace, Explains;
    if queryWords != [] {
      AlikeIffUnanimous(raw, words, query);
      forall h, text ensures Renders(text, h, queryWords) <==> Apply(h, query) == Some(text) {
        RendersIffApplied(text, h, query);
      }
    }
  }

  /** All explanations render these words alike. */
  ghost predicate RenderAlike(raw: seq<(Source, Option<string>)>, words: seq<seq<string>>, queryWords: seq<string>)
    requires |words| == |raw|
  {
    forall h, g, s, t ::
      Explains(h, raw, words) && Explains(g, raw, words) && Renders(s, h, queryWords) && Renders(t, g, queryWords) ==>
        s == t
  }

  lemma AlikeIffUnanimous(raw: seq<(Source, Option<string>)>, words: seq<seq<string>>, query: Source)
    requires AreRowWords(raw, words) && Tokens(query) != []
    ensures RenderAlike(raw, words, Tokens(query)) <==> Unanimous(FilterMap(raw, Usable), query)
  {
    var pairs := FilterMap(raw, Usable);
    assert |words| == |raw|;
    hide SourceSpells, Tokens, FilterMap, Renders, Apply, AreRowWords, InVersionSpace, Explains;
    forall h ensures Explains(h, raw, words) <==> InVersionSpace(h, pairs) { ExplainsIffInSpace(h, raw, words); }
    forall h ensures Apply(h, query).Some? { AppliesToTokens(h, query); }
    forall h, text ensures Renders(text, h, Tokens(query)) <==> Apply(h, query) == Some(text) {
      RendersIffApplied(text, h, query);
    }
    if RenderAlike(raw, words, Tokens(query)) {
      forall h, g | InVersionSpace(h, pairs) && InVersionSpace(g, pairs) ensures Apply(h, query) == Apply(g, query) {
        assert Renders(Apply(h, query).value, h, Tokens(query)) && Renders(Apply(g, query).value, g, Tokens(query));
      }
    }
  }

  /** Some case and delimiter put an observation's words into its target. */
  ghost predicate IsSuggested(raw: seq<(Source, Option<string>)>, words: seq<seq<string>>)
    requires |words| == |raw|
  {
    exists h: Hypothesis, i :: i in Observations(raw, words) && h.delimiter in {"", ".", "_", "-", " "}
                               && RendersFirst(raw[i].1.value, h, words[i])
  }

  /** Without three observations there is no answer, and how many there are is reported. */
  lemma InsufficientIffTooFew(raw: seq<(Source, Option<string>)>, words: seq<seq<string>>, query: Source)
    requires AreRowWords(raw, words)
    ensures Discover(raw, query).pairCount == |Observations(raw, words)|
    ensures Discover(raw, query).status == InsufficientGroup <==> |Observations(raw, words)| < 3
  {
    ObservationCount(raw, words);
    EarlyAnswers(raw, query);
    LateAnswers(raw, query);
    hide *;
  }

  /** Ambiguous: no explanation although some words are found in a target, or explanations that disagree. */
  lemma AmbiguousIffUnexplained(raw: seq<(Source, Option<string>)>, words: seq<seq<string>>,
                                query: Source, queryWords: seq<string>)
    requires AreRowWords(raw, words) && SourceSpells(query, queryWords)
    ensures Discover(raw, query).status == Ambiguous <==>
      && |Observations(raw, words)| >= 3 && IsSuggested(raw, words)
      && ((forall h :: !Explains(h, raw, words)) || (queryWords != [] && !RenderAlike(raw, words, queryWords)))
  {
    hide Discover, FilterMap, AreRowWords, Observations, SourceSpells, Explains, IsSuggested, RenderAlike, VersionSpace,
         Suggestions, Tokens;
    ObservationCount(raw, words);
    SpaceIffExplained(raw, words);
    SourceWordsAreTokens(query, queryWords);
    SuggestedIffNonEmpty(raw, words);
    CandidateStatus(raw, words, query, queryWords);
    EarlyAnswers(raw, query);
    LateAnswers(raw, query);
    NoSpaceWithoutSuggestion(FilterMap(raw, Usable));
  }

  lemma NoSpaceWithoutSuggestion(pairs: seq<Pair>)
    ensures VersionSpace(pairs) != {} ==> Suggestions(pairs) != {}
  {
    if h :| h in VersionSpace(pairs) { SuggestedInSpace(pairs, h); }
    hide VersionSpace, Suggestions;
  }

  lemma CandidateStatus(raw: seq<(Source, Option<string>)>, words: seq<seq<string>>,
                        query: Source, queryWords: seq<string>)
    requires AreRowWords(raw, words) && SourceSpells(query, queryWords)
    ensures |words| == |raw|
    ensures Discover(raw, query).status == Candidate <==>
      && |Observations(raw, words)| >= 3 && queryWords != []
      && (exists h :: Explains(h, raw, words)) && RenderAlike(raw, words, queryWords)
  {
    CandidateIffExplained(raw, words, query, queryWords);
    hide *;
  }

  /** What a candidate is reported with. */
  lemma CandidateIsExplained(raw: seq<(Source, Option<string>)>, words: seq<seq<string>>, query: Source)
    requires AreRowWords(raw, words) && Discover(raw, query).status == Candidate
    ensures var r, n := Discover(raw, query), |Observations(raw, words)|;
      && r.best.Some? && r.best.value.supporting == n && Explains(r.best.value.hypothesis, raw, words)
      && (if n <= 6 then 6.0 * r.best.value.confidence == n as real else r.best.value.confidence == 1.0)
  {
    hide *;
    ObservationCount(raw, words);
    LateAnswers(raw, query);
    ExplainsIffInSpace(Discover(raw, query).best.value.hypothesis, raw, words);
    ConfidenceIsASixth(|Observations(raw, words)|);
  }

  lemma ConfidenceIsASixth(n: nat)
    ensures if n <= 6 then 6.0 * Confidence(n) == n as real else Confidence(n) == 1.0
  {
  }

  lemma ObservationCount(raw: seq<(Source, Option<string>)>, words: seq<seq<string>>)
    requires AreRowWords(raw, words)
    ensures |words| == |raw| && |FilterMap(raw, Usable)| == |Observations(raw, words)|
  {
    PairsAreObservations(raw, words);
    hide FilterMap, Observations;
  }

  lemma SpaceIffExplained(raw: seq<(Source, Option<string>)>, words: seq<seq<string>>)
    requires AreRowWords(raw, words)
    ensures |words| == |raw|
    ensures VersionSpace(FilterMap(raw, Usable)) != {} <==> exists h :: Explains(h, raw, words)
    ensures forall h :: h in VersionSpace(FilterMap(raw, Usable)) <==> Explains(h, raw, words)
  {
    var space := VersionSpace(FilterMap(raw, Usable));
    forall h ensures h in space <==> Explains(h, raw, words) { ExplainsIffInSpace(h, raw, words); }
    hide Explains, FilterMap, VersionSpace;
  }

  lemma LateAnswers(raw: seq<(Source, Option<string>)>, query: Source)
    ensures var r, pairs := Discover(raw, query), FilterMap(raw, Usable);
      && r.pairCount == |pairs|
      && (|pairs| >= 3 && VersionSpace(pairs) != {} && Tokens(query) != [] ==> r.status in {Candidate, Ambiguous})
      && (r.status == Candidate ==>
            && r.best.Some? && InVersionSpace(r.best.value.hypothesis, pairs)
            && r.best.value.supporting == |pairs| && r.best.value.confidence == Confidence(|pairs|))
  {
    hide FilterMap, Usable, Tokens, Apply, VersionSpace, Suggestions, Confidence, Before;
  }

  lemma SuggestedIffNonEmpty(raw: seq<(Source, Option<string>)>, words: seq<seq<string>>)
    requires AreRowWords(raw, words)
    ensures |words| == |raw|
    ensures IsSuggested(raw, words) <==> Suggestions(FilterMap(raw, Usable)) != {}
  {
    var pairs, at := FilterMap(raw, Usable), Observations(raw, words);
    hide Usable, FilterMap, Tokens, RendersFirst, SuggestedBy, IsObservation, SourceSpells;
    if IsSuggested(raw, words) {
      var h: Hypothesis, i :| i in at && h.delimiter in DELIMITERS && RendersFirst(raw[i].1.value, h, words[i]);
      SuggestedAt(raw, words, h, i);
    }
    if h :| h in Suggestions(pairs) { RendersSuggestion(raw, words, h); }
  }

  lemma RendersSuggestion(raw: seq<(Source, Option<string>)>, words: seq<seq<string>>, h: Hypothesis)
    requires AreRowWords(raw, words) && h in Suggestions(FilterMap(raw, Usable))
    ensures IsSuggested(raw, words)
  {
    hide *;
    var p := SuggestingPair(FilterMap(raw, Usable), h);
    SuggestedDelimiter(h, p);
    var i := RowOf(raw, words, p);
    RendersFirstIffSuggested(raw[i].1.value, h, raw[i].0);
    SuggestedByRow(raw, words, h, i);
  }

  lemma SuggestingPair(pairs: seq<Pair>, h: Hypothesis) returns (p: Pair)
    requires h in Suggestions(pairs)
    ensures p in pairs && SuggestedBy(h, p)
  {
    hide SuggestedBy;
    p :| p in pairs && SuggestedBy(h, p);
  }

  lemma SuggestedByRow(raw: seq<(Source, Option<string>)>, words: seq<seq<string>>, h: Hypothesis, i: nat)
    requires |words| == |raw| && i in Observations(raw, words) && h.delimiter in DELIMITERS
    requires RendersFirst(raw[i].1.value, h, words[i])
    ensures IsSuggested(raw, words)
  {
    hide RendersFirst;
  }

  lemma SuggestedAt(raw: seq<(Source, Option<string>)>, words: seq<seq<string>>, h: Hypothesis, i: nat)
    requires AreRowWords(raw, words) && i in Observations(raw, words) && h.delimiter in DELIMITERS
    requires RendersFirst(raw[i].1.value, h, words[i])
    ensures h in Suggestions(FilterMap(raw, Usable))
  {
    PairOf(raw, words, i);
    RendersFirstIffSuggested(raw[i].1.value, h, raw[i].0);
    hide *;
    assert SuggestedBy(h, Pair(raw[i].0, raw[i].1.value));
  }

  lemma PairOf(raw: seq<(Source, Option<string>)>, words: seq<seq<string>>, i: nat)
    requires AreRowWords(raw, words) && i in Observations(raw, words)
    ensures Pair(raw[i].0, raw[i].1.value) in FilterMap(raw, Usable) && Tokens(raw[i].0) == words[i]
  {
    PairsAreObservations(raw, words);
    hide FilterMap, Tokens;
  }

  lemma RowOf(raw: seq<(Source, Option<string>)>, words: seq<seq<string>>, p: Pair) returns (i: nat)
    requires AreRowWords(raw, words) && p in FilterMap(raw, Usable)
    ensures |words| == |raw| && i in Observations(raw, words)
    ensures i < |raw| && raw[i].1.Some? && words[i] != []
    ensures p == Pair(raw[i].0, raw[i].1.value) && Tokens(raw[i].0) == words[i]
  {
    PairsAreObservations(raw, words);
    hide FilterMap, Tokens;
    i :| i in Observations(raw, words) && p == Pair(raw[i].0, raw[i].1.value);
  }

  // --- the order that picks one explanation ------------------------------------------------------------------------

  ghost function CaseRank(c: Case): nat {
    match c case AsIs => 0 case Lower => 1 case Upper => 2
  }

  /** As written before lower before upper case, then by the delimiter, then by the prefix, then by the suffix. */
  ghost predicate IsPreferred(h: Hypothesis, g: Hypothesis) {
    || CaseRank(h.letterCase) < CaseRank(g.letterCase)
    || (h.letterCase == g.letterCase
        && (|| (exists k :: IsLessAt(h.delimiter, g.delimiter, k))
            || (h.delimiter == g.delimiter && exists k :: IsLessAt(h.prefix, g.prefix, k))
            || (h.delimiter == g.delimiter && h.prefix == g.prefix && exists k :: IsLessAt(h.suffix, g.suffix, k))))
  }

  lemma CaseNamesInOrder()
    ensures forall c: Case, d: Case :: Less(CaseName(c), CaseName(d)) <==> CaseRank(c) < CaseRank(d)
  {
    forall c: Case, d: Case ensures Less(CaseName(c), CaseName(d)) <==> CaseRank(c) < CaseRank(d) {
      LessIsTotal(CaseName(c), CaseName(d));
      assert CaseName(c)[0] == match c case AsIs => 'a' case Lower => 'l' case Upper => 'u';
      assert CaseName(d)[0] == match d case AsIs => 'a' case Lower => 'l' case Upper => 'u';
    }
  }

  lemma BeforeIffPreferred(h: Hypothesis, g: Hypothesis)
    ensures Before(h, g) <==> IsPreferred(h, g)
  {
    CaseNamesInOrder();
    LessIffFirstDifference(h.delimiter, g.delimiter);
    LessIffFirstDifference(h.prefix, g.prefix);
    LessIffFirstDifference(h.suffix, g.suffix);
    LessIsTotal(h.delimiter, g.delimiter);
    LessIsTotal(h.prefix, g.prefix);
    hide Less, IsLessAt, CaseName;
  }

  /** The reported explanation is preferred to every other one. */
  lemma ReportedIsPreferred(raw: seq<(Source, Option<string>)>, words: seq<seq<string>>, query: Source, h: Hypothesis)
    requires AreRowWords(raw, words) && Discover(raw, query).status == Candidate && Explains(h, raw, words)
    ensures Discover(raw, query).best.Some?
    ensures var top := Discover(raw, query).best.value.hypothesis; h == top || IsPreferred(top, h)
  {
    ExplainsIffInSpace(h, raw, words);
    LateAnswers(raw, query);
    var top := Discover(raw, query).best.value.hypothesis;
    TopIsLeast(raw, query);
    hide Explains, InVersionSpace, Discover, FilterMap, VersionSpace;
    BeforeIffPreferred(top, h);
  }

  lemma TopIsLeast(raw: seq<(Source, Option<string>)>, query: Source)
    requires Discover(raw, query).status == Candidate
    ensures Discover(raw, query).best.Some?
    ensures IsLeast(Discover(raw, query).best.value.hypothesis, VersionSpace(FilterMap(raw, Usable)))
  {
    hide FilterMap, Usable, Tokens, Apply, VersionSpace, Suggestions, Confidence, IsLeast;
  }
}
