/** Exactly when the failing row's own target value matters to the numeric relationships. */
module RelationshipTarget {
  import opened Collections
  import opened RelationshipEvidence

  /** The failing row with this target value. */
  function WithTarget(failing: Row, target: string, cell: Cell): Row { failing[target := cell] }

  /** The engine's answer when the failing row carries this target value. */
  function AnswerFor(cell: Cell, target: string, failing: Row, rows: seq<Row>, columns: seq<ColumnMeta>,
                     minGroupSize: nat, minFit: real, sqrt: real -> real): Result
    requires minGroupSize >= 1
  {
    Discover(target, WithTarget(failing, target, cell), rows, columns, minGroupSize, minFit, sqrt)
  }

  /** No fetched row agrees with the failing row on every other column. */
  ghost predicate NoRowAgrees(target: string, failing: Row, rows: seq<Row>) {
    forall r, c :: r in rows ==> r != WithTarget(failing, target, c)
  }

  /**
    The answer is the same for every target value of the failing row if and only if no fetched row agrees with it
    on every other column.
  */
  lemma TargetIsIgnoredIff(target: string, failing: Row, rows: seq<Row>, columns: seq<ColumnMeta>,
                           minGroupSize: nat, minFit: real, sqrt: real -> real)
    requires minGroupSize >= 1
    ensures (forall c, d :: AnswerFor(c, target, failing, rows, columns, minGroupSize, minFit, sqrt)
                         == AnswerFor(d, target, failing, rows, columns, minGroupSize, minFit, sqrt))
       <==> NoRowAgrees(target, failing, rows)
  {
    hide Discover;
    if NoRowAgrees(target, failing, rows) {
      forall c, d ensures AnswerFor(c, target, failing, rows, columns, minGroupSize, minFit, sqrt)
                       == AnswerFor(d, target, failing, rows, columns, minGroupSize, minFit, sqrt)
      {
        assert WithTarget(failing, target, c) !in rows && WithTarget(failing, target, d) !in rows;
        KeepsAll(rows, failing[target := c]);
        KeepsAll(rows, failing[target := d]);
        assert failing[target := c][target := d] == failing[target := d];
        FailingTargetIsIgnored(target, failing[target := c], d, rows, columns, minGroupSize, minFit, sqrt);
      }
    } else {
      var r, c :| r in rows && r == WithTarget(failing, target, c);
      var d := FreshCell(rows, target);
      NewTargetWidensTheGroup(target, failing, c, d, rows, columns, minGroupSize, minFit, sqrt);
      hide AnswerFor;
      assert AnswerFor(c, target, failing, rows, columns, minGroupSize, minFit, sqrt)
          != AnswerFor(d, target, failing, rows, columns, minGroupSize, minFit, sqrt);
    }
  }

  lemma {:induction false} KeepsAll(rows: seq<Row>, failing: Row)
    requires failing !in rows
    ensures FilterMap(rows, Otherwise(failing)) == rows
  {
    if rows != [] {
      assert rows[0] in rows && rows == [rows[0]] + rows[1..];
      KeepsAll(rows[1..], failing);
    }
  }

  /** A bound on the texts of one column. */
  ghost function LongerThanAll(rows: seq<Row>, c: string): (n: nat)
    ensures forall r :: r in rows && Get(r, c).Label? ==> |Get(r, c).text| < n
  {
    if rows == [] then 0
    else
      var rest := LongerThanAll(rows[1..], c);
      assert rows == [rows[0]] + rows[1..];
      if Get(rows[0], c).Label? && |Get(rows[0], c).text| >= rest then |Get(rows[0], c).text| + 1 else rest
  }

  lemma FreshCell(rows: seq<Row>, c: string) returns (d: Cell)
    ensures forall r :: r in rows ==> Get(r, c) != d
  {
    d := Label(seq(LongerThanAll(rows, c), i => 'x'));
  }

  lemma {:induction false} GroupGrows(rows: seq<Row>, f: Row, g: Row, dimensions: seq<string>)
    requires g !in rows && forall d :: d in dimensions ==> Get(f, d) == Get(g, d)
    ensures |Group(rows, f, dimensions)| <= |Group(rows, g, dimensions)|
    ensures f in rows ==> |Group(rows, f, dimensions)| < |Group(rows, g, dimensions)|
  {
    if rows != [] {
      var r := rows[0];
      assert r in rows && rows == [r] + rows[1..];
      GroupGrows(rows[1..], f, g, dimensions);
      GroupHead(rows, f, dimensions);
      GroupHead(rows, g, dimensions);
      assert Matching(f, dimensions)(r) == Matching(g, dimensions)(r);
      hide Group;
    }
  }

  lemma GroupHead(rows: seq<Row>, f: Row, dimensions: seq<string>)
    requires rows != []
    ensures |Group(rows, f, dimensions)| == |Group(rows[1..], f, dimensions)|
      + if rows[0] != f && Matching(f, dimensions)(rows[0]).Some? then 1 else 0
  {
    var kept := FilterMap(rows, Otherwise(f));
    if rows[0] != f { assert kept[1..] == FilterMap(rows[1..], Otherwise(f)); }
  }

  lemma AnswerHasGroupSize(target: string, failing: Row, rows: seq<Row>, columns: seq<ColumnMeta>,
                           minGroupSize: nat, minFit: real, sqrt: real -> real)
    requires minGroupSize >= 1
    ensures Discover(target, failing, rows, columns, minGroupSize, minFit, sqrt).groupSize
         == |Group(rows, failing, Dimensions(columns, rows, target))|
  {
    hide Group, Dimensions, Shapes, Measures, SortByFit, FilterMap, Tester;
  }

  /** Where a fetched row equals the failing one, a new target value makes the comparable group larger. */
  lemma NewTargetWidensTheGroup(target: string, failing: Row, c: Cell, d: Cell, rows: seq<Row>,
                                columns: seq<ColumnMeta>, minGroupSize: nat, minFit: real, sqrt: real -> real)
    requires minGroupSize >= 1 && failing[target := c] in rows && forall r :: r in rows ==> Get(r, target) != d
    ensures AnswerFor(c, target, failing, rows, columns, minGroupSize, minFit, sqrt).groupSize
          < AnswerFor(d, target, failing, rows, columns, minGroupSize, minFit, sqrt).groupSize
  {
    hide Discover, Group, Roles, FilterMap;
    var f, g, dimensions := failing[target := c], failing[target := d], Dimensions(columns, rows, target);
    AnswerHasGroupSize(target, f, rows, columns, minGroupSize, minFit, sqrt);
    AnswerHasGroupSize(target, g, rows, columns, minGroupSize, minFit, sqrt);
    TargetIsNotNamed(Roles(columns, rows), Dimension, target);
    assert Get(g, target) == d;
    forall x | x in dimensions ensures Get(f, x) == Get(g, x) { assert x != target; }
    GroupGrows(rows, f, g, dimensions);
  }

  // --- a pool in which one equal row decides -------------------------------------------------

  function Sample(t: real, k: real): Row { map["total" := Number(t), "unit" := Number(k)] }

  /**
    Three rows agree on the total. A failing row that equals the third one leaves too few; with another total it does
    not.
  */
  lemma OneEqualRowDecides(minFit: real, sqrt: real -> real)
    requires IsSquareRoot(sqrt) && minFit <= 1.0
    ensures var rows, failing := [Sample(5.0, 1.0), Sample(5.0, 2.0), Sample(5.0, 3.0)], Sample(5.0, 3.0);
      && AnswerFor(Number(5.0), "total", failing, rows, [], 3, minFit, sqrt).status == InsufficientGroup
      && AnswerFor(Null, "total", failing, rows, [], 3, minFit, sqrt).status == Candidate
      && AnswerFor(Null, "total", failing, rows, [], 3, minFit, sqrt).best.Some?
      && AnswerFor(Null, "total", failing, rows, [], 3, minFit, sqrt).best.value.value == 5.0
  {
    var rows, failing := [Sample(5.0, 1.0), Sample(5.0, 2.0), Sample(5.0, 3.0)], Sample(5.0, 3.0);
    var f, g := failing["total" := Number(5.0)], failing["total" := Null];
    SampleGroups(rows, f, g);
    assert Dimensions([], rows, "total") == [] && Measures([], rows, "total") == [];
    assert Shapes([]) == [Constant];
    hide Group, Dimensions, Measures, Shapes;
    SampleTest(rows, g, sqrt);
    var e := Test(Constant, "total", rows, g, 3, sqrt).value;
    TesterTests(Constant, "total", rows, g, 3, sqrt);
    assert FilterMap([Constant], Tester("total", rows, g, 3, sqrt)) == [e] by {
      FilterMapSnoc([], Constant, Tester("total", rows, g, 3, sqrt));
      assert [] + [Constant] == [Constant];
      hide Tester, Test;
    }
    hide Test, Tester, FilterMap;
    OneChoice(e, 3, minFit);
  }

  lemma OneChoice(e: Evidence, size: nat, minFit: real)
    requires e.fit >= minFit
    ensures Choose([e], size, minFit).status == Candidate && Choose([e], size, minFit).best == Some(e)
  {
    assert FilterMap([e], FitsAtLeast(minFit)) == [e] by {
      FilterMapSnoc([], e, FitsAtLeast(minFit));
      assert [] + [e] == [e];
    }
    assert [e][1..] == [];
    assert SortByFit([e]) == [e];
  }

  lemma SampleGroups(rows: seq<Row>, f: Row, g: Row)
    requires rows == [Sample(5.0, 1.0), Sample(5.0, 2.0), Sample(5.0, 3.0)] && f == Sample(5.0, 3.0)
    requires g == f["total" := Null]
    ensures |Group(rows, f, [])| == 2 && Group(rows, g, []) == rows
  {
    assert rows[0]["unit"] == Number(1.0) && rows[1]["unit"] == Number(2.0);
    assert forall r :: r in rows ==> r["total"] == Number(5.0);
    assert g["total"] == Null;
    KeepsAll(rows, g);
    MatchesAll(rows, g);
    var t, u := rows[1..], rows[2..];
    assert t[1..] == u && u[1..] == [];
    GroupHead(rows, f, []);
    GroupHead(t, f, []);
    GroupHead(u, f, []);
    assert Group([], f, []) == [];
  }

  lemma {:induction false} MatchesAll(rows: seq<Row>, failing: Row)
    ensures FilterMap(rows, Matching(failing, [])) == rows
  {
    if rows != [] { MatchesAll(rows[1..], failing); }
  }

  lemma SampleTest(rows: seq<Row>, g: Row, sqrt: real -> real)
    requires rows == [Sample(5.0, 1.0), Sample(5.0, 2.0), Sample(5.0, 3.0)] && IsSquareRoot(sqrt)
    ensures Test(Constant, "total", rows, g, 3, sqrt).Some?
    ensures Test(Constant, "total", rows, g, 3, sqrt).value.fit == 1.0
    ensures Test(Constant, "total", rows, g, 3, sqrt).value.value == 5.0
  {
    var values := FilterMap(rows, Quotient(Constant, "total"));
    var t, u := rows[1..], rows[2..];
    assert t[1..] == u && u[1..] == [];
    assert FilterMap(u, Quotient(Constant, "total")) == [5.0];
    assert FilterMap(t, Quotient(Constant, "total")) == [5.0] + FilterMap(u, Quotient(Constant, "total"));
    assert values == [5.0] + FilterMap(t, Quotient(Constant, "total"));
    assert values == [5.0, 5.0, 5.0];
    MeanOfEquals(values, 5.0);
    hide FilterMap, Quotient, Mean, Variance;
    assert Test(Constant, "total", rows, g, 3, sqrt).Some?;
    forall r | r in rows ensures LawOn(Constant, "total", r, g, 5.0) { }
    assert LawGives(Constant, "total", rows, g, 5.0);
    hide Test, LawGives;
    PerfectFitIffLaw(Constant, "total", rows, g, 3, sqrt, 5.0);
  }
}
