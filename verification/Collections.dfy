/** Python's collection idioms as the engines use them, with the facts about order they rely on. */
module Collections {

  datatype Option<+T> = None | Some(value: T)

  /** The four outcomes every evidence engine reports. */
  datatype Status = Candidate | NoRelationship | Ambiguous | InsufficientGroup

  /** `min(a, b)` */
  function Minimum(a: real, b: real): real { if b < a then b else a }

  // --- comprehensions ---------------------------------------------------------

  /** `[y for y in (f(x) for x in xs) if y is not None]` */
  function FilterMap<T, U>(xs: seq<T>, f: T -> Option<U>): seq<U> {
    if xs == [] then []
    else
      var rest := FilterMap(xs[1..], f);
      match f(xs[0])
      case Some(y) => [y] + rest
      case None => rest
  }

  lemma {:induction false} FilterMapAppend<T, U>(xs: seq<T>, ys: seq<T>, f: T -> Option<U>)
    ensures FilterMap(xs + ys, f) == FilterMap(xs, f) + FilterMap(ys, f)
  {
    if xs == [] {
      assert xs + ys == ys;
    } else {
      assert (xs + ys)[0] == xs[0] && (xs + ys)[1..] == xs[1..] + ys;
      FilterMapAppend(xs[1..], ys, f);
    }
  }

  /** Appending one element, as a loop does. */
  lemma FilterMapSnoc<T, U>(xs: seq<T>, x: T, f: T -> Option<U>)
    ensures FilterMap(xs + [x], f)
         == FilterMap(xs, f) + (match f(x) case Some(y) => [y] case None => [])
  {
    FilterMapAppend(xs, [x], f);
    assert [x][1..] == [];
  }

  /** One element is kept for every position whose element is mapped. */
  lemma {:induction false} FilterMapCount<T, U>(xs: seq<T>, f: T -> Option<U>, at: set<nat>)
    requires forall i: nat :: i in at <==> i < |xs| && f(xs[i]).Some?
    ensures |FilterMap(xs, f)| == |at|
    decreases |xs|
  {
    if xs == [] {
      assert at == {};
    } else {
      var n := |xs| - 1;
      var before := xs[..n];
      assert xs == before + [xs[n]];
      FilterMapSnoc(before, xs[n], f);
      FilterMapCount(before, f, at - {n});
    }
  }

  lemma {:induction false} FilterMapMember<T, U>(xs: seq<T>, f: T -> Option<U>, y: U)
    ensures y in FilterMap(xs, f) <==> exists x :: x in xs && f(x) == Some(y)
  {
    if xs != [] {
      FilterMapMember(xs[1..], f, y);
      assert xs == [xs[0]] + xs[1..];
    }
  }

  lemma {:induction false} FilterMapLength<T, U>(xs: seq<T>, f: T -> Option<U>)
    ensures |FilterMap(xs, f)| <= |xs|
    ensures |FilterMap(xs, f)| == |xs| <==> forall x :: x in xs ==> f(x).Some?
  {
    if xs != [] {
      FilterMapLength(xs[1..], f);
      assert xs == [xs[0]] + xs[1..];
    }
  }

  lemma {:induction false} FilterMapSame<T, U>(xs: seq<T>, f: T -> Option<U>, g: T -> Option<U>)
    requires forall x :: x in xs ==> f(x) == g(x)
    ensures FilterMap(xs, f) == FilterMap(xs, g)
  {
    if xs != [] {
      assert xs[0] in xs;
      FilterMapSame(xs[1..], f, g);
    }
  }

  lemma MultisetCancel<T>(a: multiset<T>, b: multiset<T>, c: multiset<T>)
    requires c + a == b + c
    ensures a == b
  {
    forall x ensures a[x] == b[x] {
      assert (c + a)[x] == (b + c)[x];
    }
  }

  /** Takes the first element of `xs` out of its permutation `ys`. */
  lemma RemoveFirst<T>(xs: seq<T>, ys: seq<T>) returns (before: seq<T>, after: seq<T>)
    requires xs != [] && multiset(xs) == multiset(ys)
    ensures ys == before + ([xs[0]] + after)
    ensures multiset(xs[1..]) == multiset(before + after)
  {
    var x := xs[0];
    assert xs == [x] + xs[1..];
    assert x in multiset(ys);
    var j :| 0 <= j < |ys| && ys[j] == x;
    before, after := ys[..j], ys[j + 1..];
    assert ys == before + ([x] + after);
    assert multiset(ys) == multiset(before + after) + multiset([x]);
    assert multiset(xs) == multiset([x]) + multiset(xs[1..]);
    MultisetCancel(multiset(xs[1..]), multiset(before + after), multiset([x]));
  }

  /** A comprehension of a permutation is a permutation of the comprehension. */
  lemma {:induction false} FilterMapPermutation<T, U>(xs: seq<T>, ys: seq<T>, f: T -> Option<U>)
    requires multiset(xs) == multiset(ys)
    ensures multiset(FilterMap(xs, f)) == multiset(FilterMap(ys, f))
  {
    if xs == [] {
      assert |multiset(ys)| == 0;
    } else {
      var before, after := RemoveFirst(xs, ys);
      FilterMapPermutation(xs[1..], before + after, f);
      FilterMapAppend(before, [xs[0]] + after, f);
      FilterMapAppend([xs[0]], after, f);
      FilterMapAppend(before, after, f);
      FilterMapAppend([xs[0]], xs[1..], f);
      assert xs == [xs[0]] + xs[1..];
    }
  }

  lemma SameMembers<T>(xs: seq<T>, ys: seq<T>)
    requires multiset(xs) == multiset(ys)
    ensures |xs| == |ys|
    ensures forall x :: x in xs <==> x in ys
  {
    assert |multiset(xs)| == |multiset(ys)|;
    forall x ensures x in xs <==> x in ys {
      assert x in xs <==> x in multiset(xs);
      assert x in ys <==> x in multiset(ys);
    }
  }

  // --- sorted(set(xs)) --------------------------------------------------------

  ghost predicate Increasing(s: seq<int>) {
    forall i, j :: 0 <= i < j < |s| ==> s[i] < s[j]
  }

  lemma IncreasingCons(x: int, s: seq<int>)
    requires Increasing(s) && forall y :: y in s ==> x < y
    ensures Increasing([x] + s)
  {
    var c := [x] + s;
    forall i, j | 0 <= i < j < |c| ensures c[i] < c[j] {
      var y := c[j];
      assert y in s;
    }
  }

  function InsertUnique(x: int, s: seq<int>): (r: seq<int>)
    requires Increasing(s)
    ensures Increasing(r)
    ensures forall y :: y in r <==> y == x || y in s
  {
    if s == [] || x < s[0] then [x] + s
    else if x == s[0] then s
    else
      var rest := InsertUnique(x, s[1..]);
      assert s == [s[0]] + s[1..];
      IncreasingCons(s[0], rest);
      [s[0]] + rest
  }

  /** `sorted(set(xs))` */
  function SortUnique(xs: seq<int>): (r: seq<int>)
    ensures Increasing(r)
    ensures forall y :: y in r <==> y in xs
  {
    if xs == [] then [] else InsertUnique(xs[0], SortUnique(xs[1..]))
  }

  /** An increasing sequence is determined by its elements. */
  lemma {:induction false} IncreasingUnique(s: seq<int>, t: seq<int>)
    requires Increasing(s) && Increasing(t)
    requires forall x :: x in s <==> x in t
    ensures s == t
  {
    if s != [] {
      var x := s[0];
      assert x in s;
    }
    if t != [] {
      var x := t[0];
      assert x in t;
    }
    if s != [] {
      assert s[0] == t[0];
      forall x ensures x in s[1..] <==> x in t[1..] {
        assert s == [s[0]] + s[1..] && t == [t[0]] + t[1..];
        assert s[0] !in s[1..] && t[0] !in t[1..];
        assert x in s <==> x in t;
      }
      IncreasingUnique(s[1..], t[1..]);
    }
  }

  lemma SortUniquePermutation(xs: seq<int>, ys: seq<int>)
    requires multiset(xs) == multiset(ys)
    ensures SortUnique(xs) == SortUnique(ys)
  {
    SameMembers(xs, ys);
    IncreasingUnique(SortUnique(xs), SortUnique(ys));
  }

  // --- Counter(xs) ------------------------------------------------------------

  /** `Counter(xs)[x]` */
  function Count<T(==)>(xs: seq<T>, x: T): (n: nat)
    ensures n > 0 <==> x in xs
    ensures n <= |xs|
  {
    if xs == [] then 0
    else
      assert xs == [xs[0]] + xs[1..];
      Count(xs[1..], x) + if xs[0] == x then 1 else 0
  }

  lemma {:induction false} CountAppend<T>(xs: seq<T>, ys: seq<T>, x: T)
    ensures Count(xs + ys, x) == Count(xs, x) + Count(ys, x)
  {
    if xs == [] {
      assert xs + ys == ys;
    } else {
      assert (xs + ys)[0] == xs[0] && (xs + ys)[1..] == xs[1..] + ys;
      CountAppend(xs[1..], ys, x);
    }
  }

  lemma {:induction false} CountIsMultiplicity<T>(xs: seq<T>, x: T)
    ensures Count(xs, x) == multiset(xs)[x]
  {
    if xs != [] {
      assert xs == [xs[0]] + xs[1..];
      CountIsMultiplicity(xs[1..], x);
    }
  }

  lemma CountPermutation<T>(xs: seq<T>, ys: seq<T>, x: T)
    requires multiset(xs) == multiset(ys)
    ensures Count(xs, x) == Count(ys, x)
  {
    CountIsMultiplicity(xs, x);
    CountIsMultiplicity(ys, x);
  }

  lemma {:induction false} TwoCounts<T>(xs: seq<T>, a: T, b: T)
    requires a != b
    ensures Count(xs, a) + Count(xs, b) <= |xs|
  {
    if xs != [] { TwoCounts(xs[1..], a, b); }
  }

  lemma {:induction false} IncreasingIsDistinct(s: seq<int>, x: int)
    requires Increasing(s)
    ensures Count(s, x) == (if x in s then 1 else 0)
  {
    if s != [] {
      IncreasingIsDistinct(s[1..], x);
      assert s == [s[0]] + s[1..];
    }
  }

  /** `Counter(xs).most_common(1)[0][0]`: the most frequent element, the first met on a tie. */
  function Mode<T(==)>(xs: seq<T>): (m: T)
    requires xs != []
    ensures m in xs
  {
    ModeUpTo(xs, |xs|)
  }

  function ModeUpTo<T(==)>(xs: seq<T>, n: nat): (m: T)
    requires 1 <= n <= |xs|
    ensures m in xs[..n]
    ensures forall x :: x in xs[..n] ==> Count(xs, x) <= Count(xs, m)
  {
    if n == 1 then xs[0]
    else
      var m := ModeUpTo(xs, n - 1);
      assert xs[..n] == xs[..n - 1] + [xs[n - 1]];
      if Count(xs, xs[n - 1]) > Count(xs, m) then xs[n - 1] else m
  }

  lemma ModeIsMostCommon<T>(xs: seq<T>)
    requires xs != []
    ensures forall x :: Count(xs, x) <= Count(xs, Mode(xs))
  {
    assert xs[..|xs|] == xs;
    forall x ensures Count(xs, x) <= Count(xs, Mode(xs)) {
      if x !in xs { assert Count(xs, x) == 0; }
    }
  }

  lemma ModeIs<T>(xs: seq<T>, x: T)
    requires x in xs && forall y :: y != x ==> Count(xs, y) < Count(xs, x)
    ensures Mode(xs) == x
  {
    ModeIsMostCommon(xs);
  }

  /** Where `x` first occurs. */
  ghost function FirstIndex<T>(xs: seq<T>, x: T): (i: nat)
    requires x in xs
    ensures i < |xs| && xs[i] == x
    ensures forall j :: 0 <= j < i ==> xs[j] != x
  {
    if xs[0] == x then 0
    else
      var i := 1 + FirstIndex(xs[1..], x);
      assert forall j :: 1 <= j < i ==> xs[j] == xs[1..][j - 1];
      i
  }

  lemma FirstIndexSnoc<T>(xs: seq<T>, x: T, y: T)
    requires y in xs || y == x
    ensures y in xs + [x]
    ensures FirstIndex(xs + [x], y) == if y in xs then FirstIndex(xs, y) else |xs|
  {
    var i := FirstIndex(xs + [x], y);
    assert forall j :: 0 <= j < |xs| ==> (xs + [x])[j] == xs[j];
    assert y !in xs ==> (xs + [x])[|xs|] == y;
  }

  /** The mode is the first met among the most frequent elements. */
  lemma {:induction false} ModeIsFirst<T>(xs: seq<T>, n: nat, x: T)
    requires 1 <= n <= |xs| && x in xs[..n] && Count(xs, x) == Count(xs, ModeUpTo(xs, n))
    ensures ModeUpTo(xs, n) in xs && x in xs
    ensures FirstIndex(xs, ModeUpTo(xs, n)) <= FirstIndex(xs, x)
  {
    hide Count;
    if n > 1 {
      assert xs[..n] == xs[..n - 1] + [xs[n - 1]];
      if x in xs[..n - 1] && ModeUpTo(xs, n) == ModeUpTo(xs, n - 1) {
        ModeIsFirst(xs, n - 1, x);
      }
    }
  }

  /** `sum(c - 1 for c in Counter(xs).values() if c > 1)`, over the distinct values `u`. */
  function Excess(u: seq<int>, xs: seq<int>): (n: nat)
    requires forall x :: x in u ==> x in xs
  {
    if u == [] then 0
    else
      var x := u[0];
      assert x in u;
      Count(xs, x) - 1 + Excess(u[1..], xs)
  }

  lemma {:induction false} ExcessZero(u: seq<int>, xs: seq<int>)
    requires forall x :: x in u ==> x in xs
    requires Increasing(xs)
    ensures Excess(u, xs) == 0
  {
    if u != [] {
      var x := u[0];
      assert x in u;
      IncreasingIsDistinct(xs, x);
      ExcessZero(u[1..], xs);
    }
  }

  /** There is an excess exactly when some listed value occurs twice. */
  lemma {:induction false} ExcessPositiveIff(u: seq<int>, xs: seq<int>)
    requires forall x :: x in u ==> x in xs
    ensures Excess(u, xs) > 0 <==> exists x :: x in u && Count(xs, x) > 1
  {
    if u != [] {
      var x := u[0];
      assert x in u && u == [x] + u[1..];
      ExcessPositiveIff(u[1..], xs);
    }
  }

  lemma {:induction false} ExcessPermutation(u: seq<int>, xs: seq<int>, ys: seq<int>)
    requires (forall x :: x in u ==> x in xs) && forall x :: x in u ==> x in ys
    requires multiset(xs) == multiset(ys)
    ensures Excess(u, xs) == Excess(u, ys)
  {
    if u != [] {
      var x := u[0];
      assert x in u;
      CountPermutation(xs, ys, x);
      ExcessPermutation(u[1..], xs, ys);
    }
  }

  lemma {:induction false} ExcessOfOne(u: seq<int>, s: seq<int>, x: int)
    requires Increasing(u) && Increasing(s) && x in s && forall y :: y in u ==> y in s
    ensures forall y :: y in u ==> y in s + [x]
    ensures Excess(u, s + [x]) == if x in u then 1 else 0
  {
    if u != [] {
      var y := u[0];
      assert y in u && u == [y] + u[1..] && y !in u[1..];
      CountAppend(s, [x], y);
      assert [x][1..] == [];
      IncreasingIsDistinct(s, y);
      ExcessOfOne(u[1..], s, x);
    }
  }

  /** Distinct values, one of them twice, in any order. */
  lemma OneRepeat(s: seq<int>, x: int, xs: seq<int>)
    requires Increasing(s) && x in s && multiset(xs) == multiset(s + [x])
    ensures |xs| == |s| + 1 && SortUnique(xs) == s
    ensures forall y :: y in s ==> y in xs
    ensures Excess(s, xs) == 1
  {
    SameMembers(xs, s + [x]);
    IncreasingUnique(SortUnique(xs), s);
    ExcessOfOne(s, s, x);
    ExcessPermutation(s, s + [x], xs);
  }
}
