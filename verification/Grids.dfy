/** The grid of a set of values without sorting it: neighbours, the most frequent step, missing slots, repeats. */
module Grids {
  import opened Collections
  import opened Progression

  ghost function ValuesOf(xs: seq<int>): set<int> { set x | x in xs }

  /** The next larger value after x is d further on. */
  ghost predicate IsJump(values: set<int>, x: int, d: int) {
    d > 0 && x + d in values && forall z :: z in values ==> z <= x || x + d <= z
  }

  ghost function Jumps(values: set<int>, d: int): set<int> {
    set x | x in values && IsJump(values, x, d)
  }

  /** The most frequent distance of neighbours, and of equally frequent ones that of the smallest value. */
  ghost predicate IsStepOf(values: set<int>, step: int) {
    && step > 0 && Jumps(values, step) != {}
    && forall d :: d != step ==>
         || |Jumps(values, d)| < |Jumps(values, step)|
         || (|Jumps(values, d)| == |Jumps(values, step)| && IsEarlier(Jumps(values, step), Jumps(values, d)))
  }

  ghost predicate IsEarlier(a: set<int>, b: set<int>) {
    exists x :: x in a && forall y :: y in b ==> x < y
  }

  ghost predicate IsLeast(values: set<int>, lo: int) {
    lo in values && forall x :: x in values ==> lo <= x
  }

  ghost predicate IsGreatest(values: set<int>, hi: int) {
    hi in values && forall x :: x in values ==> x <= hi
  }

  ghost predicate IsOnGrid(x: int, lo: int, step: int)
    requires step > 0
  {
    (x - lo) % step == 0
  }

  /** The values at whole steps from lo, below end. */
  ghost function SlotsBetween(lo: int, end: int, step: int): set<int>
    requires step > 0
  {
    set x | lo <= x < end && IsOnGrid(x, lo, step)
  }

  // --- sorted sequences against sets --------------------------------------------------------------------

  lemma {:induction false} IncreasingCount(s: seq<int>)
    requires Increasing(s)
    ensures |ValuesOf(s)| == |s|
  {
    if s != [] {
      IncreasingCount(s[1..]);
      assert s == [s[0]] + s[1..] && s[0] !in s[1..];
      assert ValuesOf(s) == {s[0]} + ValuesOf(s[1..]);
    }
  }

  lemma EndsOf(s: seq<int>)
    requires s != [] && Increasing(s)
    ensures IsLeast(ValuesOf(s), s[0]) && IsGreatest(ValuesOf(s), s[|s| - 1])
  {
  }

  /** Counting equal differences is counting the jumps. */
  lemma {:induction false} DiffsCountJumps(s: seq<int>, d: int)
    requires Increasing(s)
    ensures Count(Diffs(s), d) == |Jumps(ValuesOf(s), d)|
  {
    if |s| < 2 {
      assert forall x, y :: x in s && y in s ==> x == y;
      forall x ensures x !in Jumps(ValuesOf(s), d) { assert x in s ==> x + d !in s || d == 0; }
      assert Jumps(ValuesOf(s), d) == {};
    } else {
      DiffsCountJumps(s[1..], d);
      FirstJump(s, d);
      assert Diffs(s)[1..] == Diffs(s[1..]) && Diffs(s)[0] == s[1] - s[0];
    }
  }

  lemma FirstJump(s: seq<int>, d: int)
    requires Increasing(s) && |s| >= 2
    ensures s[0] !in Jumps(ValuesOf(s[1..]), d)
    ensures Jumps(ValuesOf(s), d) == Jumps(ValuesOf(s[1..]), d) + if s[1] - s[0] == d then {s[0]} else {}
  {
    var values, rest := ValuesOf(s), ValuesOf(s[1..]);
    assert s == [s[0]] + s[1..] && s[0] !in s[1..] && s[1] == s[1..][0];
    assert values == rest + {s[0]} && s[1] in rest;
    assert forall z :: z in rest ==> s[0] < z && s[1] <= z;
    hide IsJump, Increasing, ValuesOf;
    forall x ensures x in Jumps(values, d) <==> x in Jumps(rest, d) || (x == s[0] && s[1] - s[0] == d) {
      SmallerValue(rest, s[0], s[1], x, d);
    }
  }

  /** A value below all others jumps to their least, and changes no other jump. */
  lemma SmallerValue(rest: set<int>, a: int, b: int, x: int, d: int)
    requires b in rest && forall z :: z in rest ==> a < z && b <= z
    ensures IsJump(rest + {a}, a, d) <==> b - a == d
    ensures x in rest ==> (IsJump(rest + {a}, x, d) <==> IsJump(rest, x, d))
  {
  }

  lemma {:induction false} FirstIndexJumps(s: seq<int>, d: int)
    requires Increasing(s) && d in Diffs(s)
    ensures FirstIndex(Diffs(s), d) < |s|
    ensures var x := s[FirstIndex(Diffs(s), d)];
      x in Jumps(ValuesOf(s), d) && forall y :: y in Jumps(ValuesOf(s), d) ==> x <= y
  {
    DiffsPositive(s);
    FirstJump(s, d);
    assert Diffs(s)[1..] == Diffs(s[1..]) && Diffs(s)[0] == s[1] - s[0];
    assert s[0] in s;
    if s[1] - s[0] != d { FirstIndexJumps(s[1..], d); }
  }

  /** The mode of the differences is the step of the set. */
  lemma ModeIsTheStep(s: seq<int>)
    requires Increasing(s) && |s| >= 2
    ensures Diffs(s) != [] && IsStepOf(ValuesOf(s), Mode(Diffs(s)))
  {
    DiffsPositive(s);
    var diffs, values, step := Diffs(s), ValuesOf(s), Mode(Diffs(s));
    DiffsCountJumps(s, step);
    ModeIsMostCommon(diffs);
    FirstIndexJumps(s, step);
    hide Jumps, Diffs, Mode, Count;
    forall d | d != step
      ensures || |Jumps(values, d)| < |Jumps(values, step)|
              || (|Jumps(values, d)| == |Jumps(values, step)| && IsEarlier(Jumps(values, step), Jumps(values, d)))
    {
      DiffsCountJumps(s, d);
      if |Jumps(values, d)| == |Jumps(values, step)| {
        assert d in diffs by { CountedIsIn(diffs, d, step); }
        EarlierStep(s, d);
      }
    }
  }

  lemma EarlierStep(s: seq<int>, d: int)
    requires Increasing(s) && |s| >= 2 && Diffs(s) != [] && d != Mode(Diffs(s)) && d in Diffs(s)
    requires Count(Diffs(s), d) == Count(Diffs(s), Mode(Diffs(s)))
    ensures IsEarlier(Jumps(ValuesOf(s), Mode(Diffs(s))), Jumps(ValuesOf(s), d))
  {
    hide *;
    var step := Mode(Diffs(s));
    FirstIndexJumps(s, step);
    FirstIndexJumps(s, d);
    var i, j := FirstIndex(Diffs(s), step), FirstIndex(Diffs(s), d);
    ModeComesFirst(Diffs(s), d);
    assert s[i] < s[j] by { SmallerEarlier(s, i, j); }
    EarlierByOne(Jumps(ValuesOf(s), step), Jumps(ValuesOf(s), d), s[i], s[j]);
  }

  lemma SmallerEarlier(s: seq<int>, i: nat, j: nat)
    requires Increasing(s) && i < j < |s|
    ensures s[i] < s[j]
  {
  }

  lemma ModeComesFirst(xs: seq<int>, x: int)
    requires xs != [] && x in xs && x != Mode(xs) && Count(xs, x) == Count(xs, Mode(xs))
    ensures Mode(xs) in xs && FirstIndex(xs, Mode(xs)) < FirstIndex(xs, x)
  {
    assert xs[..|xs|] == xs;
    ModeIsFirst(xs, |xs|, x);
    hide ModeUpTo, Count;
  }

  lemma CountedIsIn(xs: seq<int>, x: int, y: int)
    requires y in xs && Count(xs, x) == Count(xs, y)
    ensures x in xs
  {
  }

  lemma EarlierByOne(a: set<int>, b: set<int>, x: int, z: int)
    requires x in a && x < z && forall y :: y in b ==> z <= y
    ensures IsEarlier(a, b)
  {
  }

  lemma StepIsUnique(values: set<int>, a: int, b: int)
    requires IsStepOf(values, a) && IsStepOf(values, b)
    ensures a == b
  {
    hide Jumps;
  }

  // --- missing slots --------------------------------------------------------------------------------------

  lemma {:induction false} RangeIncreases(lo: int, hi: int, step: int)
    requires step > 0
    ensures Increasing(Range(lo, hi, step)) && ValuesOf(Range(lo, hi, step)) == SlotsBetween(lo, hi, step)
    decreases hi - lo
  {
    forall x ensures x in Range(lo, hi, step) <==> x in SlotsBetween(lo, hi, step) { RangeMembers(lo, hi, step, x); }
    if lo < hi {
      var rest := Range(lo + step, hi, step);
      RangeIncreases(lo + step, hi, step);
      forall x | x in rest ensures lo < x { RangeMembers(lo + step, hi, step, x); }
      IncreasingCons(lo, rest);
    }
  }

  lemma {:induction false} AbsentIncreases(slots: seq<int>, present: seq<int>)
    requires Increasing(slots)
    ensures Increasing(Absent(slots, present))
  {
    if slots != [] {
      AbsentIncreases(slots[1..], present);
      assert slots == [slots[0]] + slots[1..];
      IncreasingCons(slots[0], Absent(slots[1..], present));
    }
  }

  /** The sorted gaps are the slots that are no values. */
  lemma AbsentAreMissing(lo: int, end: int, step: int, present: seq<int>)
    requires step > 0
    ensures var gaps := Absent(Range(lo, end, step), present);
      ValuesOf(gaps) == SlotsBetween(lo, end, step) - ValuesOf(present)
      && |gaps| == |SlotsBetween(lo, end, step) - ValuesOf(present)|
  {
    RangeIncreases(lo, end, step);
    AbsentIncreases(Range(lo, end, step), present);
    var gaps := Absent(Range(lo, end, step), present);
    hide Range, Absent, Increasing;
    forall x ensures x in gaps <==> x in SlotsBetween(lo, end, step) && x !in present {
      assert x in Range(lo, end, step) <==> x in ValuesOf(Range(lo, end, step));
    }
    assert ValuesOf(gaps) == SlotsBetween(lo, end, step) - ValuesOf(present);
    IncreasingCount(gaps);
  }

  // --- repeats ----------------------------------------------------------------------------------------------

  ghost function TotalCount(u: seq<int>, xs: seq<int>): nat {
    if u == [] then 0 else Count(xs, u[0]) + TotalCount(u[1..], xs)
  }

  lemma {:induction false} TotalCountCons(u: seq<int>, x: int, xs: seq<int>)
    requires Increasing(u)
    ensures TotalCount(u, [x] + xs) == TotalCount(u, xs) + if x in u then 1 else 0
  {
    if u != [] {
      TotalCountCons(u[1..], x, xs);
      assert u == [u[0]] + u[1..] && u[0] !in u[1..];
      assert ([x] + xs)[1..] == xs;
    }
  }

  lemma {:induction false} TotalIsLength(u: seq<int>, xs: seq<int>)
    requires Increasing(u) && forall x :: x in xs ==> x in u
    ensures TotalCount(u, xs) == |xs|
  {
    if xs == [] {
      NothingCounted(u);
    } else {
      assert xs == [xs[0]] + xs[1..];
      TotalIsLength(u, xs[1..]);
      TotalCountCons(u, xs[0], xs[1..]);
    }
  }

  lemma {:induction false} NothingCounted(u: seq<int>)
    ensures TotalCount(u, []) == 0
  {
    if u != [] { NothingCounted(u[1..]); }
  }

  lemma {:induction false} ExcessIsTotal(u: seq<int>, xs: seq<int>)
    requires forall x :: x in u ==> x in xs
    ensures Excess(u, xs) == TotalCount(u, xs) - |u|
  {
    if u != [] {
      var x := u[0];
      assert x in u;
      ExcessIsTotal(u[1..], xs);
    }
  }

  /** The excess is how many more values there are than different ones. */
  lemma ExcessIsSurplus(xs: seq<int>)
    ensures Excess(SortUnique(xs), xs) == |xs| - |ValuesOf(xs)|
  {
    var u := SortUnique(xs);
    ExcessIsTotal(u, xs);
    TotalIsLength(u, xs);
    IncreasingCount(u);
    assert ValuesOf(u) == ValuesOf(xs);
  }
}
