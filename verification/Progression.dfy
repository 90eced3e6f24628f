/** Arithmetic on sorted values: steps, expected slots, and a progression that lacks one interior term. */
module Progression {
  import opened Collections

  /** `[s[i + 1] - s[i] for i in range(len(s) - 1)]` */
  function Diffs(s: seq<int>): (d: seq<int>) {
    if |s| < 2 then [] else [s[1] - s[0]] + Diffs(s[1..])
  }

  lemma {:induction false} DiffsPositive(s: seq<int>)
    requires Increasing(s)
    ensures |Diffs(s)| == if s == [] then 0 else |s| - 1
    ensures forall d :: d in Diffs(s) ==> d > 0
  {
    if |s| >= 2 { DiffsPositive(s[1..]); }
  }

  lemma {:induction false} DiffsAppend(a: seq<int>, b: seq<int>)
    requires a != [] && b != []
    ensures Diffs(a + b) == Diffs(a) + [b[0] - a[|a| - 1]] + Diffs(b)
  {
    if |a| == 1 {
      assert (a + b)[1..] == b;
    } else {
      assert (a + b)[1..] == a[1..] + b && (a + b)[1] == a[1];
      DiffsAppend(a[1..], b);
    }
  }

  /** `list(range(lo, hi, step))` */
  function Range(lo: int, hi: int, step: int): (r: seq<int>)
    requires step > 0
    decreases hi - lo
  {
    if hi <= lo then [] else [lo] + Range(lo + step, hi, step)
  }

  /** The slots of a range are the values at whole steps from its start, below its end. */
  lemma {:induction false} RangeMembers(lo: int, hi: int, step: int, x: int)
    requires step > 0
    ensures x in Range(lo, hi, step) <==> lo <= x < hi && (x - lo) % step == 0
    decreases hi - lo
  {
    if lo < hi {
      RangeMembers(lo + step, hi, step, x);
      ModShift(x - lo, step);
      assert x - lo - step == x - (lo + step);
      if lo <= x < lo + step { ModSmall(x - lo, step); }
    }
  }

  lemma {:induction false} RangeLength(lo: int, hi: int, step: int)
    requires step > 0 && lo < hi
    ensures (|Range(lo, hi, step)| - 1) * step < hi - lo <= |Range(lo, hi, step)| * step
    decreases hi - lo
  {
    var rest := |Range(lo + step, hi, step)|;
    if lo + step < hi {
      RangeLength(lo + step, hi, step);
      StepOver(rest - 1, step);
      StepOver(rest, step);
    }
  }

  /** `sorted(set(slots) - set(present))`, for increasing slots. */
  function Absent(slots: seq<int>, present: seq<int>): (gaps: seq<int>)
    ensures forall x :: x in gaps <==> x in slots && x !in present
    ensures |gaps| <= |slots|
  {
    if slots == [] then []
    else
      assert forall x :: x in slots <==> x == slots[0] || x in slots[1..];
      var rest := Absent(slots[1..], present);
      if slots[0] in present then rest else [slots[0]] + rest
  }

  lemma {:induction false} AbsentAppend(a: seq<int>, b: seq<int>, present: seq<int>)
    ensures Absent(a + b, present) == Absent(a, present) + Absent(b, present)
  {
    if a == [] {
      assert a + b == b;
    } else {
      assert (a + b)[0] == a[0] && (a + b)[1..] == a[1..] + b;
      AbsentAppend(a[1..], b, present);
    }
  }

  lemma {:induction false} AbsentNone(a: seq<int>, present: seq<int>)
    requires forall x :: x in a ==> x in present
    ensures Absent(a, present) == []
  {
    if a != [] {
      var x := a[0];
      assert x in a;
      AbsentNone(a[1..], present);
    }
  }

  // --- a progression -----------------------------------------------------------

  /** first, first + step, ..., n terms */
  function Terms(first: int, step: int, n: nat): (t: seq<int>)
    ensures |t| == n
    decreases n
  {
    if n == 0 then [] else [first] + Terms(first + step, step, n - 1)
  }

  lemma {:induction false} TermAt(first: int, step: int, n: nat, i: nat)
    requires i < n
    ensures Terms(first, step, n)[i] == first + i * step
    decreases n
  {
    if i > 0 {
      TermAt(first + step, step, n - 1, i - 1);
      StepOver(i - 1, step);
    }
  }

  lemma {:induction false} TermsIncrease(first: int, step: int, n: nat)
    requires step > 0
    ensures Increasing(Terms(first, step, n))
    ensures forall x :: x in Terms(first, step, n) ==> first <= x < first + n * step
    decreases n
  {
    if n > 0 {
      TermsIncrease(first + step, step, n - 1);
      StepOver(n - 1, step);
      MulLe(0, n - 1, step);
      IncreasingCons(first, Terms(first + step, step, n - 1));
    }
  }

  lemma {:induction false} TermsSplit(first: int, step: int, n: nat, k: nat)
    requires k <= n
    ensures Terms(first, step, n) == Terms(first, step, k) + Terms(first + k * step, step, n - k)
    decreases n
  {
    if k > 0 {
      TermsSplit(first + step, step, n - 1, k - 1);
      StepOver(k - 1, step);
    }
  }

  /** `range(min, max + step, step)` is the progression when max is its last term. */
  lemma {:induction false} RangeIsTerms(first: int, step: int, n: nat)
    requires step > 0
    ensures Range(first, first + n * step, step) == Terms(first, step, n)
    decreases n
  {
    if n > 0 {
      RangeIsTerms(first + step, step, n - 1);
      StepOver(n - 1, step);
      MulLe(0, n - 1, step);
    }
  }

  /** The progression of n terms without its term k. */
  function Without(first: int, step: int, n: nat, k: nat): (t: seq<int>)
    requires k < n
    ensures |t| == n - 1
    decreases k
  {
    if k == 0 then Terms(first + step, step, n - 1) else [first] + Without(first + step, step, n - 1, k - 1)
  }

  lemma {:induction false} WithoutSplit(first: int, step: int, n: nat, k: nat)
    requires k < n
    ensures Without(first, step, n, k) == Terms(first, step, k) + Terms(first + (k + 1) * step, step, n - k - 1)
    decreases k
  {
    if k > 0 {
      WithoutSplit(first + step, step, n - 1, k - 1);
      StepOver(k, step);
      assert first + step + k * step == first + (k + 1) * step;
    }
  }

  lemma WithoutIncreases(first: int, step: int, n: nat, k: nat)
    requires k < n && step > 0
    ensures Increasing(Without(first, step, n, k))
    ensures first + k * step !in Without(first, step, n, k)
    ensures forall x :: x in Terms(first, step, n) <==> x in Without(first, step, n, k) || x == first + k * step
  {
    WithoutSplit(first, step, n, k);
    var before, after, gone := Terms(first, step, k), Terms(first + (k + 1) * step, step, n - k - 1), first + k * step;
    TermsIncrease(first, step, k);
    TermsIncrease(first + (k + 1) * step, step, n - k - 1);
    StepOver(k, step);
    IncreasingAppend(before, after, gone);
    TermsSplit(first, step, n, k);
    assert Terms(gone, step, n - k) == [gone] + after;
  }

  lemma IncreasingAppend(a: seq<int>, b: seq<int>, between: int)
    requires Increasing(a) && Increasing(b)
    requires forall x :: x in a ==> x < between
    requires forall x :: x in b ==> between < x
    ensures Increasing(a + b)
  {
    var c := a + b;
    forall i, j | 0 <= i < j < |c| ensures c[i] < c[j] {
      var x, y := c[i], c[j];
      if i < |a| { assert x in a; }
      if j >= |a| { assert y in b; }
    }
  }

  function Repeat(x: int, n: nat): (s: seq<int>)
    ensures |s| == n
  {
    if n == 0 then [] else [x] + Repeat(x, n - 1)
  }

  lemma {:induction false} RepeatCount(x: int, n: nat, y: int)
    ensures Count(Repeat(x, n), y) == if x == y then n else 0
  {
    if n > 0 { RepeatCount(x, n - 1, y); }
  }

  lemma RepeatMode(x: int, n: nat)
    requires n > 0
    ensures Mode(Repeat(x, n)) == x && Count(Repeat(x, n), x) == n
  {
    forall y ensures Count(Repeat(x, n), y) == if x == y then n else 0 { RepeatCount(x, n, y); }
    ModeIs(Repeat(x, n), x);
  }

  lemma {:induction false} TermsDiffs(first: int, step: int, n: nat)
    requires n > 0
    ensures Diffs(Terms(first, step, n)) == Repeat(step, n - 1)
    decreases n
  {
    if n > 1 {
      TermsDiffs(first + step, step, n - 1);
      assert Terms(first, step, n)[1..] == Terms(first + step, step, n - 1);
    }
  }

  /** All its steps but one are `step`; the one over the hole is twice that. */
  lemma WithoutDiffs(first: int, step: int, n: nat, k: nat)
    requires 0 < k < n - 1
    ensures Diffs(Without(first, step, n, k)) == Repeat(step, k - 1) + [2 * step] + Repeat(step, n - 2 - k)
  {
    WithoutSplit(first, step, n, k);
    var before, after := Terms(first, step, k), Terms(first + (k + 1) * step, step, n - k - 1);
    TermsDiffs(first, step, k);
    TermsDiffs(first + (k + 1) * step, step, n - k - 1);
    TermAt(first, step, k, k - 1);
    StepOver(k - 1, step);
    StepOver(k, step);
    assert after[0] == first + (k + 1) * step;
    HoleDiffs(before, after, step);
  }

  lemma HoleDiffs(before: seq<int>, after: seq<int>, step: int)
    requires before != [] && after != [] && after[0] - before[|before| - 1] == 2 * step
    requires Diffs(before) == Repeat(step, |before| - 1) && Diffs(after) == Repeat(step, |after| - 1)
    ensures Diffs(before + after) == Repeat(step, |before| - 1) + [2 * step] + Repeat(step, |after| - 1)
  {
    DiffsAppend(before, after);
  }

  /** With at least five terms the step is the unique mode of the differences. */
  lemma WithoutMode(first: int, step: int, n: nat, k: nat)
    requires 0 < k < n - 1 && step > 0 && n >= 5
    ensures IsUniqueMode(Diffs(Without(first, step, n, k)), step, n - 3)
  {
    hide Without, Diffs, Repeat, Mode, Count, IsUniqueMode;
    WithoutDiffs(first, step, n, k);
    HoleMode(step, k - 1, n - 2 - k);
  }

  /** All but one of the differences equal the step. */
  ghost predicate IsUniqueMode(d: seq<int>, step: int, supporting: int) {
    d != [] && Mode(d) == step && Count(d, step) == supporting == |d| - 1
  }

  lemma HoleMode(step: int, p: nat, q: nat)
    requires step > 0 && p + q >= 2
    ensures IsUniqueMode(Repeat(step, p) + [2 * step] + Repeat(step, q), step, p + q)
  {
    var d := Repeat(step, p) + [2 * step] + Repeat(step, q);
    forall y ensures Count(d, y) == (if y == step then p + q else 0) + (if y == 2 * step then 1 else 0) {
      HoleCounts(step, p, q, y);
    }
    ModeIs(d, step);
  }

  lemma HoleCounts(step: int, p: nat, q: nat, y: int)
    requires step > 0
    ensures Count(Repeat(step, p) + [2 * step] + Repeat(step, q), y)
         == (if y == step then p + q else 0) + (if y == 2 * step then 1 else 0)
  {
    RepeatCount(step, p, y);
    RepeatCount(step, q, y);
    CountAppend(Repeat(step, p) + [2 * step], Repeat(step, q), y);
    CountAppend(Repeat(step, p), [2 * step], y);
    assert [2 * step][1..] == [];
  }

  /** The expected slots of the full progression lack exactly the deleted term. */
  lemma WithoutGap(first: int, step: int, n: nat, k: nat)
    requires k < n && step > 0
    ensures Absent(Terms(first, step, n), Without(first, step, n, k)) == [first + k * step]
  {
    hide Absent;
    var gone := first + k * step;
    var before, after := Terms(first, step, k), Terms(gone + step, step, n - k - 1);
    assert Terms(first, step, n) == before + ([gone] + after) by {
      TermsSplit(first, step, n, k);
    }
    assert Without(first, step, n, k) == before + after by {
      WithoutSplit(first, step, n, k);
      StepOver(k, step);
    }
    WithoutIncreases(first, step, n, k);
    OneGap(before, gone, after);
  }

  lemma OneGap(before: seq<int>, gone: int, after: seq<int>)
    requires gone !in before + after
    ensures Absent(before + ([gone] + after), before + after) == [gone]
  {
    var present := before + after;
    AbsentNone(before, present);
    AbsentNone(after, present);
    AbsentAppend(before, [gone] + after, present);
    AbsentAppend([gone], after, present);
    assert [gone][1..] == [];
  }

  lemma WithoutEnds(first: int, step: int, n: nat, k: nat)
    requires 0 < k < n - 1
    ensures var t := Without(first, step, n, k);
      t[0] == first && t[|t| - 1] == first + (n - 1) * step
  {
    WithoutSplit(first, step, n, k);
    TermAt(first + (k + 1) * step, step, n - k - 1, n - k - 2);
    Distribute(k + 1, n - k - 2, step);
  }

  // --- division ----------------------------------------------------------------

  lemma Distribute(i: int, j: int, step: int)
    ensures (i + j) * step == i * step + j * step
  {
  }

  lemma StepOver(i: int, step: int)
    ensures (i + 1) * step == i * step + step
  {
  }

  lemma MulLe(i: int, j: int, step: int)
    requires i <= j && step > 0
    ensures i * step <= j * step
  {
  }

  lemma DivideWithin(q: int, r: int, step: int)
    requires step > 0 && 0 <= r < step
    ensures (q * step + r) / step == q && (q * step + r) % step == r
  {
    var x := q * step + r;
    var e := x / step;
    assert x == e * step + x % step;
    if e < q { MulLe(e + 1, q, step); StepOver(e, step); }
    if e > q { MulLe(q + 1, e, step); StepOver(q, step); }
  }

  lemma ModShift(a: int, step: int)
    requires step > 0
    ensures (a - step) % step == a % step
  {
    var q := a / step;
    assert a == q * step + a % step;
    StepOver(q - 1, step);
    DivideWithin(q - 1, a % step, step);
  }

  lemma QuotientAtLeast(q: int, a: int, step: int)
    requires step > 0 && q * step <= a
    ensures q <= a / step
  {
    assert a == (a / step) * step + a % step;
    if a / step < q { MulLe(a / step + 1, q, step); StepOver(a / step, step); }
  }

  lemma ModSmall(a: int, step: int)
    requires 0 <= a < step
    ensures a % step == a && a / step == 0
  {
  }
}
