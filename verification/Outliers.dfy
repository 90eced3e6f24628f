/** The profiler's outlier count: interpolated quartiles and the fences around them. */
module Outliers {
  import opened Collections

  function InsertSorted(x: real, s: seq<real>): seq<real> {
    if s == [] || x <= s[0] then [x] + s else [s[0]] + InsertSorted(x, s[1..])
  }

  /** `sorted(values)` */
  function Sorted(s: seq<real>): seq<real> {
    if s == [] then [] else InsertSorted(s[0], Sorted(s[1..]))
  }

  function Ceil(x: real): int { -((-x).Floor) }

  /** Two values weighted by the distances to the other's position. */
  function Blend(x: real, y: real, u: real, w: real): real { x * u + y * w }

  /** The value at a fractional position: interpolated between its neighbours. */
  function At(s: seq<real>, k: real): real
    requires s != [] && 0.0 <= k <= (|s| - 1) as real
  {
    var f, c := k.Floor, Ceil(k);
    if f == c then s[f] else Blend(s[f], s[c], c as real - k, k - f as real)
  }

  function ShareIn(n: real, share: real): real { n * share }

  function Position(n: nat, pct: real): (k: real)
    requires 0.0 <= pct <= 100.0
    ensures 0.0 <= k <= n as real
  {
    ShareOf(n as real, pct / 100.0);
    ShareIn(n as real, pct / 100.0)
  }

  lemma ShareOf(n: real, share: real)
    requires n >= 0.0 && 0.0 <= share <= 1.0
    ensures 0.0 <= ShareIn(n, share) <= n
  {
    NonNegative(n, share);
    NonNegative(n, 1.0 - share);
    assert n * (1.0 - share) == n - n * share;
  }

  lemma NonNegative(x: real, y: real)
    requires x >= 0.0 && y >= 0.0
    ensures x * y >= 0.0
  {
  }

  /** `_percentile` of sorted values */
  function Percentile(s: seq<real>, pct: real): real
    requires 0.0 <= pct <= 100.0
  {
    if s == [] then 0.0 else At(s, Position(|s| - 1, pct))
  }

  predicate IsOutside(v: real, lower: real, upper: real) { v < lower || v > upper }

  function Outside(values: seq<real>, lower: real, upper: real): (n: nat) {
    if values == [] then 0 else Outside(values[1..], lower, upper) + if IsOutside(values[0], lower, upper) then 1 else 0
  }

  function Quartile1(values: seq<real>): real { Percentile(Sorted(values), 25.0) }

  function Quartile3(values: seq<real>): real { Percentile(Sorted(values), 75.0) }

  function LowerFence(q1: real, q3: real): real { q1 - 1.5 * (q3 - q1) }

  function UpperFence(q1: real, q3: real): real { q3 + 1.5 * (q3 - q1) }

  /** `_iqr_outlier_count` */
  function OutlierCount(values: seq<real>): nat {
    if |values| < 4 then 0
    else
      var q1, q3 := Quartile1(values), Quartile3(values);
      Outside(values, LowerFence(q1, q3), UpperFence(q1, q3))
  }

  // --- sorting ---------------------------------------------------------------------------

  ghost predicate Ascending(s: seq<real>) {
    forall i, j :: 0 <= i <= j < |s| ==> s[i] <= s[j]
  }

  lemma PrependAscends(x: real, s: seq<real>)
    requires Ascending(s) && forall i :: 0 <= i < |s| ==> x <= s[i]
    ensures Ascending([x] + s)
  {
  }

  lemma {:induction false} InsertKeepsOrder(x: real, s: seq<real>)
    requires Ascending(s)
    ensures multiset(InsertSorted(x, s)) == multiset([x]) + multiset(s) && Ascending(InsertSorted(x, s))
  {
    if s == [] || x <= s[0] {
      PrependAscends(x, s);
      assert multiset([x] + s) == multiset([x]) + multiset(s);
    } else {
      InsertKeepsOrder(x, s[1..]);
      var rest := InsertSorted(x, s[1..]);
      assert s == [s[0]] + s[1..];
      assert InsertSorted(x, s) == [s[0]] + rest;
      hide InsertSorted;
      forall i | 0 <= i < |rest| ensures s[0] <= rest[i] {
        var y := rest[i];
        assert y in multiset(rest);
        assert y == x || y in s[1..];
      }
      PrependAscends(s[0], rest);
    }
  }

  lemma {:induction false} SortedIsASort(s: seq<real>)
    ensures multiset(Sorted(s)) == multiset(s) && Ascending(Sorted(s)) && |Sorted(s)| == |s|
  {
    if s != [] {
      SortedIsASort(s[1..]);
      InsertKeepsOrder(s[0], Sorted(s[1..]));
      assert s == [s[0]] + s[1..];
      SameMembers(Sorted(s), s);
    }
  }

  /** Two sorted arrangements of the same values are equal. */
  lemma {:induction false} SortIsUnique(s: seq<real>, t: seq<real>)
    requires Ascending(s) && Ascending(t) && multiset(s) == multiset(t)
    ensures s == t
  {
    SameMembers(s, t);
    if s != [] {
      var x, y := s[0], t[0];
      assert x in t && y in s;
      assert s == [x] + s[1..] && t == [y] + t[1..];
      assert x == y;
      MultisetCancel(multiset(s[1..]), multiset(t[1..]), multiset([x]));
      SortIsUnique(s[1..], t[1..]);
    }
  }

  lemma SortedPermutation(s: seq<real>, t: seq<real>)
    requires multiset(s) == multiset(t)
    ensures Sorted(s) == Sorted(t)
  {
    SortedIsASort(s);
    SortedIsASort(t);
    SortIsUnique(Sorted(s), Sorted(t));
  }

  // --- quartiles -------------------------------------------------------------------------------

  lemma BlendForm(x: real, y: real, u: real, w: real)
    requires u + w == 1.0
    ensures Blend(x, y, u, w) == x + (y - x) * w
  {
    assert x * u == x * (1.0 - w) == x - x * w;
    assert (y - x) * w == y * w - x * w;
  }

  lemma BlendIsMonotone(x: real, y: real, u: real, w: real, v: real, z: real)
    requires x <= y && u + w == 1.0 && v + z == 1.0 && w <= z
    ensures Blend(x, y, u, w) <= Blend(x, y, v, z)
  {
    BlendForm(x, y, u, w);
    BlendForm(x, y, v, z);
    NonNegative(y - x, z - w);
    assert (y - x) * (z - w) == (y - x) * z - (y - x) * w;
  }

  lemma BlendIsBetween(x: real, y: real, u: real, w: real)
    requires x <= y && 0.0 <= u && 0.0 <= w && u + w == 1.0
    ensures x <= Blend(x, y, u, w) <= y
  {
    BlendIsMonotone(x, y, 1.0, 0.0, u, w);
    BlendIsMonotone(x, y, u, w, 0.0, 1.0);
  }

  /** The value at a position lies between its two neighbours. */
  lemma AtIsBetween(s: seq<real>, k: real)
    requires Ascending(s) && s != [] && 0.0 <= k <= (|s| - 1) as real
    ensures 0 <= k.Floor <= Ceil(k) < |s| && s[k.Floor] <= At(s, k) <= s[Ceil(k)]
  {
    var f, c := k.Floor, Ceil(k);
    hide Blend;
    if f < c { BlendIsBetween(s[f], s[c], c as real - k, k - f as real); }
  }

  lemma AtIsMonotone(s: seq<real>, k: real, l: real)
    requires Ascending(s) && s != [] && 0.0 <= k <= l <= (|s| - 1) as real
    ensures At(s, k) <= At(s, l)
  {
    AtIsBetween(s, k);
    AtIsBetween(s, l);
    var f := k.Floor;
    FloorAndCeil(k, |s| - 1);
    FloorAndCeil(l, |s| - 1);
    hide Blend, Ceil;
    if Ceil(k) <= l.Floor {
      assert s[Ceil(k)] <= s[l.Floor];
    } else if f == l.Floor && f < Ceil(k) && f < Ceil(l) {
      BlendIsMonotone(s[f], s[f + 1], (f + 1) as real - k, k - f as real, (f + 1) as real - l, l - f as real);
    }
  }

  lemma PositionIsMonotone(n: nat, p: real, q: real)
    requires 0.0 <= p <= q <= 100.0
    ensures Position(n, p) <= Position(n, q)
  {
    var d := q / 100.0 - p / 100.0;
    NonNegative(n as real, d);
    assert n as real * (q / 100.0) - n as real * (p / 100.0) == n as real * d;
  }

  /** Percentiles increase with the percentage. */
  lemma PercentileIsMonotone(s: seq<real>, p: real, q: real)
    requires Ascending(s) && 0.0 <= p <= q <= 100.0
    ensures Percentile(s, p) <= Percentile(s, q)
  {
    if s != [] {
      PositionIsMonotone(|s| - 1, p, q);
      hide Position, At;
      AtIsMonotone(s, Position(|s| - 1, p), Position(|s| - 1, q));
    }
  }

  /** The quartiles are ordered and lie within the data. */
  lemma QuartilesAreOrdered(values: seq<real>)
    requires values != []
    ensures Sorted(values) != [] && |Sorted(values)| == |values|
    ensures Sorted(values)[0] <= Quartile1(values) <= Quartile3(values) <= Sorted(values)[|values| - 1]
  {
    SortedIsASort(values);
    hide Position, At, Sorted;
    var s := Sorted(values);
    AtIsBetween(s, Position(|s| - 1, 25.0));
    AtIsBetween(s, Position(|s| - 1, 75.0));
    PercentileIsMonotone(s, 25.0, 75.0);
  }

  // --- counting ------------------------------------------------------------------------------------

  lemma {:induction false} OutsideAppend(a: seq<real>, b: seq<real>, lower: real, upper: real)
    ensures Outside(a + b, lower, upper) == Outside(a, lower, upper) + Outside(b, lower, upper)
  {
    if a == [] {
      assert a + b == b;
    } else {
      assert (a + b)[1..] == a[1..] + b;
      OutsideAppend(a[1..], b, lower, upper);
    }
  }

  lemma {:induction false} OutsidePermutation(a: seq<real>, b: seq<real>, lower: real, upper: real)
    requires multiset(a) == multiset(b)
    ensures Outside(a, lower, upper) == Outside(b, lower, upper)
  {
    if a == [] {
      assert |multiset(b)| == 0;
    } else {
      var before, after := RemoveFirst(a, b);
      OutsidePermutation(a[1..], before + after, lower, upper);
      OutsideAppend(before, [a[0]] + after, lower, upper);
      OutsideAppend(before, after, lower, upper);
      assert ([a[0]] + after)[1..] == after;
    }
  }

  /** The order of the values does not matter. */
  lemma PermutationInvariance(values: seq<real>, shuffled: seq<real>)
    requires multiset(values) == multiset(shuffled)
    ensures OutlierCount(values) == OutlierCount(shuffled)
  {
    SameMembers(values, shuffled);
    SortedPermutation(values, shuffled);
    var q1, q3 := Quartile1(values), Quartile3(values);
    OutsidePermutation(values, shuffled, LowerFence(q1, q3), UpperFence(q1, q3));
  }

  lemma {:induction false} OutsideAtMost(s: seq<real>, lower: real, upper: real)
    ensures Outside(s, lower, upper) <= |s|
    ensures (forall i :: 0 <= i < |s| ==> !IsOutside(s[i], lower, upper)) ==> Outside(s, lower, upper) == 0
  {
    if s != [] { OutsideAtMost(s[1..], lower, upper); }
  }

  /** Of sorted values only those before position c or after position f can be outside fences around s[c] and s[f]. */
  lemma OnlyTheTails(s: seq<real>, c: nat, f: nat, lower: real, upper: real)
    requires Ascending(s) && c <= f < |s| && lower <= s[c] && s[f] <= upper
    ensures Outside(s, lower, upper) <= c + (|s| - 1 - f)
  {
    var low, mid, high := s[..c], s[c..f + 1], s[f + 1..];
    assert s == low + mid + high;
    OutsideAppend(low + mid, high, lower, upper);
    OutsideAppend(low, mid, lower, upper);
    OutsideAtMost(low, lower, upper);
    OutsideAtMost(mid, lower, upper);
    OutsideAtMost(high, lower, upper);
  }

  lemma QuarterPositions(n: nat)
    requires n >= 3
    ensures var k, l := Position(n, 25.0), Position(n, 75.0);
      0 <= Ceil(k) <= l.Floor <= n && n - l.Floor == Ceil(k) == (n + 3) / 4
  {
    var k, l := Position(n, 25.0), Position(n, 75.0);
    assert k == n as real * 0.25 && l == n as real * 0.75;
    var q, r := n / 4, n % 4;
    assert n as real == 4.0 * q as real + r as real;
    assert k == q as real + r as real * 0.25 && l == n as real - k;
  }

  /** At most a quarter of the positions on either side can be outliers. */
  lemma CountIsBounded(values: seq<real>)
    requires values != []
    ensures OutlierCount(values) <= 2 * ((|values| - 1 + 3) / 4)
  {
    if |values| >= 4 {
      hide Position, At, Sorted, Outside, Ceil;
      var s, n := Sorted(values), |values| - 1;
      SortedIsASort(values);
      QuartilesAreOrdered(values);
      var k, l := Position(n, 25.0), Position(n, 75.0);
      AtIsBetween(s, k);
      AtIsBetween(s, l);
      QuarterPositions(n);
      var q1, q3 := Quartile1(values), Quartile3(values);
      OutsidePermutation(values, s, LowerFence(q1, q3), UpperFence(q1, q3));
      OnlyTheTails(s, Ceil(k), l.Floor, LowerFence(q1, q3), UpperFence(q1, q3));
    }
  }

  // --- change of scale --------------------------------------------------------------------------------

  function Affine(a: real, b: real, x: real): real { a * x + b }

  function Scale(a: real, b: real): real -> Option<real> { (x: real) => Some(Affine(a, b, x)) }

  /** The same measurements in another unit. */
  function Scaled(values: seq<real>, a: real, b: real): seq<real> { FilterMap(values, Scale(a, b)) }

  lemma {:induction false} ScaledAt(values: seq<real>, a: real, b: real)
    ensures |Scaled(values, a, b)| == |values|
    ensures forall i :: 0 <= i < |values| ==> Scaled(values, a, b)[i] == Affine(a, b, values[i])
  {
    if values != [] { ScaledAt(values[1..], a, b); }
  }

  lemma AffineOrder(a: real, b: real, x: real, y: real)
    requires a != 0.0
    ensures a > 0.0 ==> (x < y <==> Affine(a, b, x) < Affine(a, b, y))
    ensures a < 0.0 ==> (x < y <==> Affine(a, b, y) < Affine(a, b, x))
  {
    if a > 0.0 {
      if x < y { assert a * x < a * y; } else { assert a * x >= a * y; }
    } else {
      if x < y { assert a * x > a * y; } else { assert a * x <= a * y; }
    }
  }

  function Reverse(s: seq<real>): (r: seq<real>)
    ensures |r| == |s| && forall i :: 0 <= i < |s| ==> r[i] == s[|s| - 1 - i]
    ensures multiset(r) == multiset(s)
  {
    if s == [] then []
    else
      assert s == [s[0]] + s[1..];
      Reverse(s[1..]) + [s[0]]
  }

  lemma SortedScaled(values: seq<real>, a: real, b: real)
    requires a != 0.0
    ensures a > 0.0 ==> Sorted(Scaled(values, a, b)) == Scaled(Sorted(values), a, b)
    ensures a < 0.0 ==> Sorted(Scaled(values, a, b)) == Reverse(Scaled(Sorted(values), a, b))
  {
    var s := Sorted(values);
    var t := if a > 0.0 then Scaled(s, a, b) else Reverse(Scaled(s, a, b));
    SortedIsASort(values);
    SortedIsASort(Scaled(values, a, b));
    FilterMapPermutation(s, values, Scale(a, b));
    ScaledAt(s, a, b);
    hide Affine, Scaled, Reverse, Sorted;
    forall i, j | 0 <= i <= j < |t| ensures t[i] <= t[j] {
      if a > 0.0 { AffineOrder(a, b, s[j], s[i]); }
      else { AffineOrder(a, b, s[|s| - 1 - i], s[|s| - 1 - j]); }
    }
    SortIsUnique(Sorted(Scaled(values, a, b)), t);
  }

  lemma AffineBlend(a: real, b: real, x: real, y: real, u: real, w: real)
    requires u + w == 1.0
    ensures Blend(Affine(a, b, x), Affine(a, b, y), u, w) == Affine(a, b, Blend(x, y, u, w))
  {
    assert (a * x + b) * u == a * (x * u) + b * u;
    assert (a * y + b) * w == a * (y * w) + b * w;
    assert b * u + b * w == b * (u + w) == b;
    assert a * (x * u + y * w) == a * (x * u) + a * (y * w);
  }

  lemma AtScaled(s: seq<real>, a: real, b: real, k: real)
    requires s != [] && 0.0 <= k <= (|s| - 1) as real
    ensures |Scaled(s, a, b)| == |s| && At(Scaled(s, a, b), k) == Affine(a, b, At(s, k))
  {
    ScaledAt(s, a, b);
    hide Scaled, Blend, Affine;
    var f, c := k.Floor, Ceil(k);
    if f < c { AffineBlend(a, b, s[f], s[c], c as real - k, k - f as real); }
  }

  lemma AtReversed(s: seq<real>, k: real)
    requires s != [] && 0.0 <= k <= (|s| - 1) as real
    ensures At(Reverse(s), k) == At(s, (|s| - 1) as real - k)
  {
    hide Reverse, Blend, Ceil;
    var n := |s| - 1;
    var l, f, c := n as real - k, k.Floor, Ceil(k);
    FloorAndCeil(k, n);
    MirrorFloor(n, k);
    BlendTurns(s[n - f], s[n - c], c as real - k, k - f as real);
    assert Reverse(s)[f] == s[n - f] && Reverse(s)[c] == s[n - c];
  }

  lemma FloorAndCeil(k: real, n: nat)
    requires 0.0 <= k <= n as real
    ensures 0 <= k.Floor <= Ceil(k) <= n && Ceil(k) <= k.Floor + 1 && (Ceil(k) == k.Floor ==> k == k.Floor as real)
  {
  }

  lemma MirrorFloor(n: nat, k: real)
    ensures (n as real - k).Floor == n - Ceil(k) && Ceil(n as real - k) == n - k.Floor
  {
  }

  lemma BlendTurns(x: real, y: real, u: real, w: real)
    ensures Blend(x, y, u, w) == Blend(y, x, w, u)
  {
  }

  lemma MirrorPosition(n: nat)
    ensures Position(n, 75.0) == n as real - Position(n, 25.0)
  {
    assert Position(n, 25.0) == n as real * 0.25 && Position(n, 75.0) == n as real * 0.75;
  }

  /** Quartiles follow the scale; a reversed axis exchanges them. */
  lemma QuartilesScaled(values: seq<real>, a: real, b: real)
    requires a != 0.0 && values != []
    ensures var scaled := Scaled(values, a, b);
      && (a > 0.0 ==>
            Quartile1(scaled) == Affine(a, b, Quartile1(values))
            && Quartile3(scaled) == Affine(a, b, Quartile3(values)))
      && (a < 0.0 ==>
            Quartile1(scaled) == Affine(a, b, Quartile3(values))
            && Quartile3(scaled) == Affine(a, b, Quartile1(values)))
  {
    hide Position, At, Sorted, Scaled, Affine, Reverse;
    var s, n := Sorted(values), |values| - 1;
    SortedIsASort(values);
    SortedScaled(values, a, b);
    MirrorPosition(n);
    AtScaled(s, a, b, Position(n, 25.0));
    AtScaled(s, a, b, Position(n, 75.0));
    AtReversed(Scaled(s, a, b), Position(n, 25.0));
    AtReversed(Scaled(s, a, b), Position(n, 75.0));
  }

  lemma {:induction false} OutsideScaled(values: seq<real>, a: real, b: real, lower: real, upper: real)
    requires a != 0.0
    ensures a > 0.0 ==>
      Outside(Scaled(values, a, b), Affine(a, b, lower), Affine(a, b, upper)) == Outside(values, lower, upper)
    ensures a < 0.0 ==>
      Outside(Scaled(values, a, b), Affine(a, b, upper), Affine(a, b, lower)) == Outside(values, lower, upper)
  {
    if values != [] {
      OutsideScaled(values[1..], a, b, lower, upper);
      AffineOrder(a, b, values[0], lower);
      AffineOrder(a, b, upper, values[0]);
      hide Affine;
    }
  }

  /** The fences move with the scale, and change places when it is reversed. */
  lemma FencesScaled(a: real, b: real, q1: real, q3: real)
    ensures LowerFence(Affine(a, b, q1), Affine(a, b, q3)) == Affine(a, b, LowerFence(q1, q3))
    ensures UpperFence(Affine(a, b, q1), Affine(a, b, q3)) == Affine(a, b, UpperFence(q1, q3))
    ensures LowerFence(Affine(a, b, q3), Affine(a, b, q1)) == Affine(a, b, UpperFence(q1, q3))
    ensures UpperFence(Affine(a, b, q3), Affine(a, b, q1)) == Affine(a, b, LowerFence(q1, q3))
  {
    var d := q3 - q1;
    assert a * (q1 - 1.5 * d) == a * q1 - 1.5 * (a * d);
    assert a * (q3 + 1.5 * d) == a * q3 + 1.5 * (a * d);
    assert a * d == a * q3 - a * q1;
  }

  /** No change of unit, not even one that reverses the axis, changes the count. */
  lemma ScaleInvariance(values: seq<real>, a: real, b: real)
    requires a != 0.0
    ensures OutlierCount(Scaled(values, a, b)) == OutlierCount(values)
  {
    ScaledAt(values, a, b);
    if |values| >= 4 {
      hide Affine, Scaled, Outside, LowerFence, UpperFence, Quartile1, Quartile3;
      var q1, q3 := Quartile1(values), Quartile3(values);
      QuartilesScaled(values, a, b);
      FencesScaled(a, b, q1, q3);
      OutsideScaled(values, a, b, LowerFence(q1, q3), UpperFence(q1, q3));
    }
  }

  // --- the count spelled out ---------------------------------------------------------------------------------

  /** Whole position i and the part w of the way to the next one. */
  ghost predicate IsPosition(k: real, i: nat, w: real) { 0.0 <= w < 1.0 && k == i as real + w }

  /** The value i, and that part of the way to the next value. */
  ghost predicate IsBetween(x: real, s: seq<real>, i: nat, w: real) {
    i < |s| && if w == 0.0 then x == s[i] else i + 1 < |s| && x == s[i] + w * (s[i + 1] - s[i])
  }

  lemma AtInterpolates(s: seq<real>, k: real, i: nat, w: real)
    requires s != [] && 0.0 <= k <= (|s| - 1) as real && IsPosition(k, i, w)
    ensures IsBetween(At(s, k), s, i, w)
  {
    assert k.Floor == i;
    if w > 0.0 {
      assert Ceil(k) == i + 1;
      BlendIsPartWay(s[i], s[i + 1], w);
    }
  }

  lemma BlendIsPartWay(x: real, y: real, w: real)
    ensures Blend(x, y, 1.0 - w, w) == x + w * (y - x)
  {
  }

  /** A percentile lies that share of the way from the least to the greatest value's position. */
  lemma PercentileInterpolates(values: seq<real>, pct: real, i: nat, w: real)
    requires values != [] && 0.0 <= pct <= 100.0
    requires IsPosition(ShareIn((|values| - 1) as real, pct / 100.0), i, w)
    ensures IsBetween(Percentile(Sorted(values), pct), Sorted(values), i, w)
  {
    SortedIsASort(values);
    hide At, IsBetween, IsPosition, Sorted;
    AtInterpolates(Sorted(values), Position(|values| - 1, pct), i, w);
  }

  /** The quartiles lie a quarter and three quarters of the way. */
  lemma QuartilesInterpolate(values: seq<real>, i: nat, u: real, j: nat, w: real)
    requires values != [] && IsPosition(ShareIn((|values| - 1) as real, 0.25), i, u)
    requires IsPosition(ShareIn((|values| - 1) as real, 0.75), j, w)
    ensures IsBetween(Quartile1(values), Sorted(values), i, u)
    ensures IsBetween(Quartile3(values), Sorted(values), j, w)
  {
    hide IsBetween, IsPosition, Sorted, Percentile, ShareIn;
    assert 25.0 / 100.0 == 0.25 && 75.0 / 100.0 == 0.75;
    PercentileInterpolates(values, 25.0, i, u);
    PercentileInterpolates(values, 75.0, j, w);
  }

  /** More than one and a half times the distance of the quartiles below the first or above the third. */
  ghost predicate IsOutlier(v: real, q1: real, q3: real) {
    2.0 * (q1 - v) > 3.0 * (q3 - q1) || 2.0 * (v - q3) > 3.0 * (q3 - q1)
  }

  ghost function OutliersAt(values: seq<real>, q1: real, q3: real): set<nat> {
    set i: nat | i < |values| && IsOutlier(values[i], q1, q3)
  }

  lemma {:induction false} OutsideCounts(values: seq<real>, q1: real, q3: real)
    ensures Outside(values, LowerFence(q1, q3), UpperFence(q1, q3)) == |OutliersAt(values, q1, q3)|
    decreases |values|
  {
    var keep := OutlierOf(q1, q3);
    FilterMapCount(values, keep, OutliersAt(values, q1, q3));
    OutsideIsFiltered(values, q1, q3);
  }

  function OutlierOf(q1: real, q3: real): real -> Option<real> {
    (v: real) => if IsOutside(v, LowerFence(q1, q3), UpperFence(q1, q3)) then Some(v) else None
  }

  lemma {:induction false} OutsideIsFiltered(values: seq<real>, q1: real, q3: real)
    ensures Outside(values, LowerFence(q1, q3), UpperFence(q1, q3)) == |FilterMap(values, OutlierOf(q1, q3))|
  {
    if values != [] { OutsideIsFiltered(values[1..], q1, q3); }
  }

  /** Of fewer than four values none is counted, of others those that are outliers by the quartiles. */
  lemma OutliersAreCounted(values: seq<real>)
    ensures OutlierCount(values) ==
      if |values| < 4 then 0 else |OutliersAt(values, Quartile1(values), Quartile3(values))|
  {
    OutsideCounts(values, Quartile1(values), Quartile3(values));
    hide Quartile1, Quartile3, Outside, OutliersAt;
  }
}
