/** The relationship engine in terms of the cells: roles, comparable rows, tested laws, fits, and the law's answer. */
module RelationshipLaws {
  import opened Collections
  import opened Text
  import opened RelationshipEvidence

  // --- the role of a column ------------------------------------------------------------------------

  ghost predicate IsNumeric(dataType: string) {
    IsUpperText(dataType, "INTEGER") || IsUpperText(dataType, "DECIMAL")
  }

  ghost predicate IsCategorical(dataType: string) {
    IsUpperText(dataType, "STRING") || IsUpperText(dataType, "TEXT") || IsUpperText(dataType, "BOOLEAN")
  }

  ghost predicate HasCell(row: Row, c: string) { c in row && row[c] != Null }

  ghost function RowsWith(sample: seq<Row>, c: string): set<nat> {
    set i: nat | i < |sample| && HasCell(sample[i], c)
  }

  ghost function CellsOf(sample: seq<Row>, c: string): set<Cell> {
    set i: nat | i < |sample| && HasCell(sample[i], c) :: sample[i][c]
  }

  /** Known to be, or in the sample, at least 95 per cent distinct. */
  ghost predicate IsDistinctive(meta: ColumnMeta, sample: seq<Row>) {
    if meta.distinct.Some? then meta.distinct.value >= 95.0
    else
      && RowsWith(sample, meta.name) != {}
      && 100 * |CellsOf(sample, meta.name)| >= 95 * |RowsWith(sample, meta.name)|
  }

  lemma {:induction false} PresentMembers(sample: seq<Row>, c: string, v: Cell)
    ensures v in FilterMap(sample, PresentIn(c)) <==> v in CellsOf(sample, c)
  {
    FilterMapMember(sample, PresentIn(c), v);
    if row :| row in sample && PresentIn(c)(row) == Some(v) {
      var i :| 0 <= i < |sample| && sample[i] == row;
      assert HasCell(sample[i], c);
    }
    if v in CellsOf(sample, c) {
      var i: nat :| i < |sample| && HasCell(sample[i], c) && sample[i][c] == v;
      assert PresentIn(c)(sample[i]) == Some(v);
    }
  }

  lemma DistinctShare(a: nat, b: nat)
    requires b > 0
    ensures 100.0 * a as real / b as real >= 95.0 <==> 100 * a >= 95 * b
  {
    AtLeastShare(100.0 * a as real, b as real, 95.0);
  }

  lemma DistinctiveIff(meta: ColumnMeta, sample: seq<Row>)
    ensures var distinct := if meta.distinct.Some? then meta.distinct else DerivedDistinct(meta.name, sample);
      IsDistinctive(meta, sample) <==> distinct.Some? && distinct.value >= 95.0
  {
    var values, at := FilterMap(sample, PresentIn(meta.name)), RowsWith(sample, meta.name);
    FilterMapCount(sample, PresentIn(meta.name), at);
    forall v ensures v in values <==> v in CellsOf(sample, meta.name) { PresentMembers(sample, meta.name, v); }
    assert (set v | v in values) == CellsOf(sample, meta.name);
    if values != [] { DistinctShare(|CellsOf(sample, meta.name)|, |at|); }
    hide FilterMap, RowsWith, CellsOf;
  }

  /** Keys and distinctive columns are identifiers, but numbers only in a sample of at least twenty rows. */
  lemma RoleIs(meta: ColumnMeta, sample: seq<Row>)
    ensures Classify(meta, sample) == Identifier <==>
      || meta.isPrimaryKey
      || (IsDistinctive(meta, sample)
          && ((IsNumeric(meta.dataType) && |sample| >= 20) || IsCategorical(meta.dataType)))
    ensures Classify(meta, sample) == Measure <==>
      && !meta.isPrimaryKey && IsNumeric(meta.dataType) && !(IsDistinctive(meta, sample) && |sample| >= 20)
    ensures Classify(meta, sample) == Dimension <==>
      !meta.isPrimaryKey && IsCategorical(meta.dataType) && !IsDistinctive(meta, sample)
  {
    DistinctiveIff(meta, sample);
    UpperCaseIff(meta.dataType, "INTEGER");
    UpperCaseIff(meta.dataType, "DECIMAL");
    UpperCaseIff(meta.dataType, "STRING");
    UpperCaseIff(meta.dataType, "TEXT");
    UpperCaseIff(meta.dataType, "BOOLEAN");
    assert "INTEGER" != "STRING" && "INTEGER" != "TEXT" && "INTEGER" != "BOOLEAN" by {
      assert "INTEGER"[0] == 'I' && "STRING"[0] == 'S' && "TEXT"[0] == 'T' && "BOOLEAN"[0] == 'B';
    }
    assert "DECIMAL" != "STRING" && "DECIMAL" != "TEXT" && "DECIMAL" != "BOOLEAN" by {
      assert "DECIMAL"[0] == 'D' && "STRING"[0] == 'S' && "TEXT"[0] == 'T' && "BOOLEAN"[0] == 'B';
    }
    hide UpperCase, IsUpperText, IsDistinctive, DerivedDistinct;
  }

  /** Column i is the last of its name. */
  ghost predicate IsLast(columns: seq<ColumnMeta>, i: int) {
    0 <= i < |columns| && forall j :: i < j < |columns| ==> columns[j].name != columns[i].name
  }

  lemma {:induction false} LastIsNamed(columns: seq<ColumnMeta>, i: int)
    requires IsLast(columns, i)
    ensures LastNamed(columns, columns[i].name) == Some(columns[i])
    decreases |columns|
  {
    if i < |columns| - 1 { LastIsNamed(columns[..|columns| - 1], i); }
  }

  lemma {:induction false} NamedIsLast(columns: seq<ColumnMeta>, name: string) returns (i: int)
    requires LastNamed(columns, name).Some?
    ensures IsLast(columns, i) && columns[i].name == name && LastNamed(columns, name) == Some(columns[i])
    decreases |columns|
  {
    var n := |columns| - 1;
    if columns[n].name == name { i := n; } else { i := NamedIsLast(columns[..n], name); }
  }

  /** The last column of this name has this role. */
  ghost predicate HasRole(columns: seq<ColumnMeta>, sample: seq<Row>, role: Role, name: string) {
    exists i :: IsLast(columns, i) && columns[i].name == name && Classify(columns[i], sample) == role
  }

  /** The dimensions are the other columns' names whose last column is one. */
  lemma DimensionsAre(columns: seq<ColumnMeta>, sample: seq<Row>, target: string, d: string)
    ensures d in Dimensions(columns, sample, target) <==>
      d != target && HasRole(columns, sample, Dimension, d)
  {
    NamesWithRole(columns, sample, target, Dimension, d);
  }

  lemma NamesWithRole(columns: seq<ColumnMeta>, sample: seq<Row>, target: string, role: Role, name: string)
    ensures name in FilterMap(Roles(columns, sample), NamedIf(role, target)) <==>
      name != target && HasRole(columns, sample, role, name)
  {
    var roles := Roles(columns, sample);
    FilterMapMember(roles, NamedIf(role, target), name);
    RolesFollowTheLastColumn(columns, sample, (name, role));
    hide Roles, Classify, FilterMap, LastNamed;
    if name in FilterMap(roles, NamedIf(role, target)) {
      var entry :| entry in roles && NamedIf(role, target)(entry) == Some(name);
      assert entry == (name, role);
      var i := NamedIsLast(columns, name);
    }
    if name != target && HasRole(columns, sample, role, name) {
      var i :| IsLast(columns, i) && columns[i].name == name && Classify(columns[i], sample) == role;
      LastIsNamed(columns, i);
      assert NamedIf(role, target)((name, role)) == Some(name);
    }
  }

  // --- measures: the first fifteen, in the order in which their names first appear --------------------

  ghost predicate IsFirst(columns: seq<ColumnMeta>, i: int) {
    0 <= i < |columns| && forall j :: 0 <= j < i ==> columns[j].name != columns[i].name
  }

  /** The name a first appears before the name b. */
  ghost predicate AppearsBefore(columns: seq<ColumnMeta>, a: string, b: string) {
    exists i, j :: IsFirst(columns, i) && IsFirst(columns, j) && columns[i].name == a && columns[j].name == b && i < j
  }

  lemma AppearsLater(columns: seq<ColumnMeta>, last: ColumnMeta, a: string, b: string)
    requires AppearsBefore(columns, a, b)
    ensures AppearsBefore(columns + [last], a, b)
  {
    var i, j :| IsFirst(columns, i) && IsFirst(columns, j) && columns[i].name == a && columns[j].name == b && i < j;
    assert IsFirst(columns + [last], i) && IsFirst(columns + [last], j);
  }

  ghost predicate HasFirst(columns: seq<ColumnMeta>, name: string) {
    exists i :: IsFirst(columns, i) && columns[i].name == name
  }

  lemma {:induction false} NamedHasFirst(columns: seq<ColumnMeta>, i: nat)
    requires i < |columns|
    ensures HasFirst(columns, columns[i].name)
  {
    if j :| 0 <= j < i && columns[j].name == columns[i].name {
      NamedHasFirst(columns, j);
    } else {
      assert IsFirst(columns, i);
    }
  }

  lemma NewNameIsLast(columns: seq<ColumnMeta>, last: ColumnMeta, a: string)
    requires HasFirst(columns, a) && forall c :: c in columns ==> c.name != last.name
    ensures AppearsBefore(columns + [last], a, last.name)
  {
    var i :| IsFirst(columns, i) && columns[i].name == a;
    assert IsFirst(columns + [last], i) && IsFirst(columns + [last], |columns|);
  }

  /** These are the columns' names, each once, in the order in which they first appear. */
  ghost predicate AreListed(columns: seq<ColumnMeta>, roles: seq<(string, Role)>) {
    && (forall a :: 0 <= a < |roles| ==> HasFirst(columns, roles[a].0))
    && (forall a, b :: 0 <= a < b < |roles| ==> AppearsBefore(columns, roles[a].0, roles[b].0))
    && (forall c :: c in columns ==> IsNamedIn(c.name, roles))
  }

  ghost predicate IsNamedIn(name: string, roles: seq<(string, Role)>) {
    exists a :: 0 <= a < |roles| && roles[a].0 == name
  }

  lemma {:induction false} RolesInOrder(columns: seq<ColumnMeta>, sample: seq<Row>)
    ensures AreListed(columns, Roles(columns, sample))
    decreases |columns|
  {
    if columns != [] {
      var n := |columns| - 1;
      var before, last := columns[..n], columns[n];
      var prior, roles := Roles(before, sample), Roles(columns, sample);
      RolesInOrder(before, sample);
      AssignedNames(prior, last.name, Classify(last, sample));
      assert columns == before + [last];
      NamedHasFirst(columns, n);
      if IsNamedIn(last.name, prior) {
        KnownNameKeepsList(before, last, prior, roles);
      } else {
        assert roles == prior + [roles[|prior|]];
        NewNameJoinsList(before, last, prior, roles[|prior|]);
      }
    }
  }

  lemma KnownNameKeepsList(before: seq<ColumnMeta>, last: ColumnMeta, prior: seq<(string, Role)>,
                           roles: seq<(string, Role)>)
    requires AreListed(before, prior) && IsNamedIn(last.name, prior)
    requires |roles| == |prior| && forall k :: 0 <= k < |prior| ==> roles[k].0 == prior[k].0
    ensures AreListed(before + [last], roles)
  {
    hide HasFirst, AppearsBefore;
    forall a | 0 <= a < |roles| ensures HasFirst(before + [last], roles[a].0) {
      FirstStays(before, last, prior[a].0);
    }
    forall a, b | 0 <= a < b < |roles| ensures AppearsBefore(before + [last], roles[a].0, roles[b].0) {
      AppearsLater(before, last, prior[a].0, prior[b].0);
    }
    forall c | c in before + [last] ensures IsNamedIn(c.name, roles) {
      assert IsNamedIn(c.name, prior);
      var a :| 0 <= a < |prior| && prior[a].0 == c.name;
      assert roles[a].0 == c.name;
    }
  }

  lemma NewNameJoinsList(before: seq<ColumnMeta>, last: ColumnMeta, prior: seq<(string, Role)>, entry: (string, Role))
    requires AreListed(before, prior) && !IsNamedIn(last.name, prior) && entry.0 == last.name
    requires HasFirst(before + [last], last.name)
    ensures AreListed(before + [last], prior + [entry])
  {
    var roles := prior + [entry];
    assert forall c :: c in before ==> c.name != last.name;
    hide HasFirst, AppearsBefore;
    forall a | 0 <= a < |roles| ensures HasFirst(before + [last], roles[a].0) {
      if a < |prior| { FirstStays(before, last, prior[a].0); }
    }
    forall a, b | 0 <= a < b < |roles| ensures AppearsBefore(before + [last], roles[a].0, roles[b].0) {
      if b < |prior| {
        AppearsLater(before, last, prior[a].0, prior[b].0);
      } else {
        NewNameIsLast(before, last, prior[a].0);
      }
    }
    forall c | c in before + [last] ensures IsNamedIn(c.name, roles) {
      if c in before {
        assert IsNamedIn(c.name, prior);
        var a :| 0 <= a < |prior| && prior[a].0 == c.name;
        assert roles[a].0 == c.name;
      } else {
        assert roles[|prior|].0 == c.name;
      }
    }
  }

  lemma FirstStays(columns: seq<ColumnMeta>, last: ColumnMeta, name: string)
    requires HasFirst(columns, name)
    ensures HasFirst(columns + [last], name)
  {
    var i :| IsFirst(columns, i) && columns[i].name == name;
    assert IsFirst(columns + [last], i);
  }

  lemma {:induction false} FilteredInOrder(roles: seq<(string, Role)>, role: Role, target: string, a: nat, b: nat)
    returns (i: nat, j: nat)
    requires a < b < |FilterMap(roles, NamedIf(role, target))|
    ensures i < j < |roles|
    ensures roles[i].0 == FilterMap(roles, NamedIf(role, target))[a]
    ensures roles[j].0 == FilterMap(roles, NamedIf(role, target))[b]
    decreases |roles|
  {
    var names, rest := FilterMap(roles, NamedIf(role, target)), FilterMap(roles[1..], NamedIf(role, target));
    if NamedIf(role, target)(roles[0]).None? {
      assert names == rest;
      i, j := FilteredInOrder(roles[1..], role, target, a, b);
      i, j := i + 1, j + 1;
    } else if a > 0 {
      i, j := FilteredInOrder(roles[1..], role, target, a - 1, b - 1);
      i, j := i + 1, j + 1;
    } else {
      i := 0;
      var x := rest[b - 1];
      assert x in rest;
      FilterMapMember(roles[1..], NamedIf(role, target), x);
      var entry :| entry in roles[1..] && NamedIf(role, target)(entry) == Some(x);
      var k :| 0 <= k < |roles[1..]| && roles[1..][k] == entry;
      j := k + 1;
    }
  }

  /** The measures are the first fifteen of the other columns' names that are one, in order of appearance. */
  lemma MeasuresAre(columns: seq<ColumnMeta>, sample: seq<Row>, target: string)
    ensures var ms := Measures(columns, sample, target);
      && |ms| <= 15
      && (forall m :: m in ms ==> m != target && HasRole(columns, sample, Measure, m))
      && (forall a, b :: 0 <= a < b < |ms| ==> AppearsBefore(columns, ms[a], ms[b]))
      && (forall m :: m != target && HasRole(columns, sample, Measure, m) && m !in ms ==>
            |ms| == 15 && forall other :: other in ms ==> AppearsBefore(columns, other, m))
  {
    var roles := Roles(columns, sample);
    var all, ms := FilterMap(roles, NamedIf(Measure, target)), Measures(columns, sample, target);
    RolesInOrder(columns, sample);
    forall m ensures m in all <==> m != target && HasRole(columns, sample, Measure, m) {
      NamesWithRole(columns, sample, target, Measure, m);
    }
    forall a, b | 0 <= a < b < |all| ensures AppearsBefore(columns, all[a], all[b]) {
      var i, j := FilteredInOrder(roles, Measure, target, a, b);
    }
    hide Roles, FilterMap, HasRole, AppearsBefore, HasFirst;
    FirstOfAll(columns, all, ms);
  }

  lemma FirstOfAll(columns: seq<ColumnMeta>, all: seq<string>, ms: seq<string>)
    requires ms == if |all| > 15 then all[..15] else all
    requires forall a, b :: 0 <= a < b < |all| ==> AppearsBefore(columns, all[a], all[b])
    ensures |ms| <= 15 && (forall m :: m in ms ==> m in all)
    ensures forall a, b :: 0 <= a < b < |ms| ==> AppearsBefore(columns, ms[a], ms[b])
    ensures forall m :: m in all && m !in ms ==>
      |ms| == 15 && forall other :: other in ms ==> AppearsBefore(columns, other, m)
  {
    hide AppearsBefore;
    forall m, other | m in all && m !in ms && other in ms ensures AppearsBefore(columns, other, m) {
      var b :| 0 <= b < |all| && all[b] == m;
      var a :| 0 <= a < |ms| && ms[a] == other;
      assert forall k :: 0 <= k < |ms| ==> ms[k] in ms && ms[k] == all[k];
      assert all[a] == other;
    }
  }

  // --- comparable rows ------------------------------------------------------------------------------------

  /** The same cell, where a column that is missing is as good as null. */
  ghost predicate AgreeOn(row: Row, other: Row, c: string) {
    if HasCell(row, c) then HasCell(other, c) && row[c] == other[c] else !HasCell(other, c)
  }

  /** Not the failing row itself, and like it on every dimension. */
  ghost predicate IsComparable(row: Row, failing: Row, dimensions: seq<string>) {
    row != failing && forall d :: d in dimensions ==> AgreeOn(row, failing, d)
  }

  ghost function ComparedWith(failing: Row, dimensions: seq<string>): Row -> Option<Row> {
    (row: Row) => if IsComparable(row, failing, dimensions) then Some(row) else None
  }

  lemma GetAgrees(row: Row, other: Row, c: string)
    ensures Get(row, c) == Get(other, c) <==> AgreeOn(row, other, c)
  {
  }

  /** The group is the comparable rows in their order. */
  lemma {:induction false} GroupIsComparable(rows: seq<Row>, failing: Row, dimensions: seq<string>)
    ensures Group(rows, failing, dimensions) == FilterMap(rows, ComparedWith(failing, dimensions))
  {
    if rows != [] {
      GroupIsComparable(rows[1..], failing, dimensions);
      forall d ensures Get(rows[0], d) == Get(failing, d) <==> AgreeOn(rows[0], failing, d) {
        GetAgrees(rows[0], failing, d);
      }
      hide Get, AgreeOn;
    }
  }

  // --- the shapes and the rows they use -----------------------------------------------------------------------

  /** The shapes tested on these measures: each pair once, but both differences. */
  ghost predicate IsOffered(shape: Shape, ms: seq<string>) {
    match shape
    case Constant => true
    case Ratio(m) => m in ms
    case Product(a, b) => IsPair(ms, a, b)
    case Sum(a, b) => IsPair(ms, a, b)
    case Difference(a, b) => exists i, j :: 0 <= i < |ms| && 0 <= j < |ms| && i != j && ms[i] == a && ms[j] == b
  }

  ghost predicate IsPair(ms: seq<string>, a: string, b: string) {
    exists i, j :: 0 <= i < j < |ms| && ms[i] == a && ms[j] == b
  }

  lemma {:induction false} RatiosAre(ms: seq<string>, shape: Shape)
    ensures shape in Ratios(ms) <==> shape.Ratio? && shape.column in ms
  {
    if ms != [] {
      RatiosAre(ms[1..], shape);
      assert ms == [ms[0]] + ms[1..];
    }
  }

  lemma {:induction false} ShapedAre(pairs: seq<(string, string)>, make: (string, string) -> Shape, shape: Shape)
    ensures shape in Shaped(pairs, make) <==> exists p :: p in pairs && make(p.0, p.1) == shape
  {
    if pairs != [] {
      ShapedAre(pairs[1..], make, shape);
      assert pairs == [pairs[0]] + pairs[1..];
    }
  }

  lemma OfferedIff(shape: Shape, ms: seq<string>)
    ensures shape in Shapes(ms) <==> IsOffered(shape, ms)
  {
    RatiosAre(ms, shape);
    ShapedAre(Combinations(ms), ProductOf(), shape);
    ShapedAre(Combinations(ms), SumOf(), shape);
    ShapedAre(Permutations(ms, 0), DifferenceOf(), shape);
    hide Combinations, Permutations, Ratios, Shaped;
    if !IsSpread(shape) {
      var p := (shape.left, shape.right);
      CombinationsAreOrderedPairs(ms, p);
      PermutationsAreAllPairs(ms, 0, p);
      match shape
      case Product(a, b) => PairMakes(Combinations(ms), ProductOf(), shape, p);
      case Sum(a, b) => PairMakes(Combinations(ms), SumOf(), shape, p);
      case Difference(a, b) => PairMakes(Permutations(ms, 0), DifferenceOf(), shape, p);
    }
  }

  lemma PairMakes(pairs: seq<(string, string)>, make: (string, string) -> Shape, shape: Shape, p: (string, string))
    requires !IsSpread(shape) && p == (shape.left, shape.right) && make(p.0, p.1) == shape
    requires forall q: (string, string) :: make(q.0, q.1) == shape ==> q == p
    ensures (exists q :: q in pairs && make(q.0, q.1) == shape) <==> p in pairs
  {
    if q :| q in pairs && make(q.0, q.1) == shape { assert q == p; }
  }

  ghost function UsedRows(shape: Shape, target: string, group: seq<Row>): set<nat> {
    set i: nat | i < |group| && UsesRow(shape, target, group[i])
  }

  lemma UsedRowsCount(shape: Shape, target: string, group: seq<Row>)
    ensures Usable(shape, target, group) == |UsedRows(shape, target, group)|
  {
    var at := UsedRows(shape, target, group);
    if IsSpread(shape) {
      FilterMapCount(group, Quotient(shape, target), at);
    } else {
      FilterMapCount(group, TargetAndDerived(shape, target), at);
    }
  }

  // --- closeness ------------------------------------------------------------------------------------------------

  /** a and b are at most e apart. */
  ghost predicate IsWithin(a: real, b: real, e: real) { -e <= a - b <= e }

  /** Within this share of one of them, or a millionth. */
  ghost predicate AreClose(a: real, b: real, share: real) {
    || IsWithin(a, b, share * a) || IsWithin(a, b, -(share * a))
    || IsWithin(a, b, share * b) || IsWithin(a, b, -(share * b)) || IsWithin(a, b, 0.000001)
  }

  lemma CloseIff(a: real, b: real)
    ensures Close(a, b) <==> AreClose(a, b, 0.01)
    ensures IsClose(a, b, 0.001) <==> AreClose(a, b, 0.001)
  {
  }

  /** A candidate competes with the best one at most three hundredths behind it, unless their values are close. */
  lemma CompetesIff(top: Evidence, e: Evidence)
    ensures Competes(top, e) <==> top.fit <= e.fit + 0.03 && !AreClose(e.value, top.value, 0.01)
  {
    CloseIff(e.value, top.value);
    hide Close, AreClose;
  }

  // --- the fits ---------------------------------------------------------------------------------------------------

  /** a and its opposite are at most s. */
  ghost predicate IsBoundedBy(a: real, s: real) { -s <= a <= s }

  /** The larger of the magnitudes, but at least a billionth. */
  ghost predicate IsScale(s: real, t: real, d: real) {
    && IsBoundedBy(t, s) && IsBoundedBy(d, s) && 0.000000001 <= s
    && (s == t || s == -t || s == d || s == -d || s == 0.000000001)
  }

  /** The error is the distance as a share of the scale. */
  lemma RelativeErrorIs(t: real, d: real, s: real)
    requires IsScale(s, t, d)
    ensures IsBoundedBy(t - d, RelativeError(t, d) * s)
    ensures RelativeError(t, d) * s == t - d || RelativeError(t, d) * s == d - t
  {
    assert Max(Max(Abs(t), Abs(d)), 0.000000001) == s;
    assert RelativeError(t, d) == Abs(t - d) / s;
    assert Abs(t - d) / s * s == Abs(t - d);
  }

  lemma ScaleExists(t: real, d: real)
    ensures IsScale(Max(Max(Abs(t), Abs(d)), 0.000000001), t, d)
  {
  }

  /** The sum of what f says of every element. */
  ghost function SumOver<T(!new)>(xs: seq<T>, f: T -> real): real {
    if xs == [] then 0.0 else f(xs[0]) + SumOver(xs[1..], f)
  }

  lemma {:induction false} TotalIsSum(xs: seq<real>)
    ensures Total(xs) == SumOver(xs, (x: real) => x)
  {
    if xs != [] { TotalIsSum(xs[1..]); }
  }

  lemma {:induction false} ErrorsSum(pairs: seq<(real, real)>)
    ensures Total(Errors(pairs)) == SumOver(pairs, (p: (real, real)) => RelativeError(p.0, p.1))
  {
    if pairs != [] {
      ErrorsSum(pairs[1..]);
      assert Errors(pairs)[1..] == Errors(pairs[1..]);
      hide RelativeError;
    }
  }

  lemma {:induction false} SquaresSum(xs: seq<real>, mean: real)
    ensures Total(SquaredDeviations(xs, mean)) == SumOver(xs, (x: real) => (x - mean) * (x - mean))
  {
    if xs != [] {
      SquaresSum(xs[1..], mean);
      assert SquaredDeviations(xs, mean)[1..] == SquaredDeviations(xs[1..], mean);
    }
  }

  /** x is what everything sums to, divided by how many there are. */
  ghost predicate IsAverage(x: real, sum: real, n: int) { x * n as real == sum }

  lemma QuotientIsAverage(sum: real, n: int)
    requires n > 0
    ensures IsAverage(sum / n as real, sum, n)
  {
  }

  /** A derived law: the error is the average relative error, and the quality what it leaves of one. */
  lemma DerivedFitIs(pairs: seq<(real, real)>)
    requires pairs != []
    ensures var fit := FitDerived(pairs);
      && IsAverage(fit.residual, SumOver(pairs, (p: (real, real)) => RelativeError(p.0, p.1)), |pairs|)
      && fit.quality == (if fit.residual <= 1.0 then 1.0 - fit.residual else 0.0)
  {
    ErrorsSum(pairs);
    QuotientIsAverage(Total(Errors(pairs)), |pairs|);
    hide Total, Errors, IsAverage, SumOver;
  }

  /** The squared deviation is the average square of the distances from the mean. */
  ghost predicate IsDeviation(deviation: real, values: seq<real>, mean: real) {
    && deviation >= 0.0
    && IsAverage(deviation * deviation, SumOver(values, (x: real) => (x - mean) * (x - mean)), |values|)
  }

  /** The deviation as a share of the mean's magnitude. */
  ghost predicate IsVariation(residual: real, deviation: real, mean: real) {
    residual >= 0.0 && (residual * mean == deviation || residual * mean == -deviation)
  }

  /** A constant or a ratio: the mean, and how little the values vary about it; no fit about a mean of zero. */
  lemma SpreadFitIs(values: seq<real>, sqrt: real -> real, mean: real)
    requires values != [] && IsSquareRoot(sqrt)
    requires IsAverage(mean, SumOver(values, (x: real) => x), |values|)
    ensures FitSpread(values, sqrt).None? <==> mean == 0.0
    ensures mean != 0.0 ==>
      var fit := FitSpread(values, sqrt).value;
      && fit.coefficient == mean
      && (exists deviation :: IsDeviation(deviation, values, mean) && IsVariation(fit.residual, deviation, mean))
      && fit.quality == (if fit.residual <= 1.0 then 1.0 - fit.residual else 0.0)
  {
    TotalIsSum(values);
    QuotientIsAverage(Total(values), |values|);
    AverageIsUnique(mean, Mean(values), SumOver(values, (x: real) => x), |values|);
    if mean != 0.0 {
      var deviation := if |values| > 1 then sqrt(Variance(values)) else 0.0;
      DeviationOf(values, sqrt, mean);
      VariationOf(deviation, mean);
      hide Variance, Mean, Total, IsSquareRoot, IsDeviation, IsVariation, SumOver, IsAverage;
      assert IsDeviation(deviation, values, mean) && IsVariation(Abs(deviation / mean), deviation, mean);
    }
  }

  lemma AverageIsUnique(x: real, y: real, sum: real, n: int)
    requires n > 0 && IsAverage(x, sum, n) && IsAverage(y, sum, n)
    ensures x == y
  {
    assert (x - y) * n as real == 0.0;
  }

  lemma DeviationOf(values: seq<real>, sqrt: real -> real, mean: real)
    requires values != [] && IsSquareRoot(sqrt) && mean == Mean(values)
    ensures IsDeviation(if |values| > 1 then sqrt(Variance(values)) else 0.0, values, mean)
  {
    SquaresSum(values, mean);
    VarianceIsZeroIffEqual(values);
    QuotientIsAverage(Total(SquaredDeviations(values, mean)), |values|);
    if |values| == 1 { OneDeviatesNot(values); }
  }

  lemma OneDeviatesNot(values: seq<real>)
    requires |values| == 1
    ensures SumOver(values, (x: real) => (x - Mean(values)) * (x - Mean(values))) == 0.0
  {
    assert values[1..] == [];
    assert Total(values) == values[0];
  }

  lemma VariationOf(deviation: real, mean: real)
    requires mean != 0.0 && deviation >= 0.0
    ensures IsVariation(Abs(deviation / mean), deviation, mean)
  {
    var q := deviation / mean;
    assert q * mean == deviation;
    assert (-q) * mean == -deviation;
  }

  // --- one shape tested --------------------------------------------------------------------------------------------

  /** What a spread shape expects to be constant: the target, or the target by the measure. */
  lemma QuotientIs(shape: Shape, target: string, row: Row)
    requires IsSpread(shape)
    ensures Quotient(shape, target)(row).Some? <==> UsesRow(shape, target, row)
    ensures UsesRow(shape, target, row) ==>
      var q := Quotient(shape, target)(row).value;
      match shape
      case Constant => q == row[target].number
      case Ratio(m) => q * row[m].number == row[target].number
  {
    if shape.Ratio? && UsesRow(shape, target, row) {
      var t, o := row[target].number, row[shape.column].number;
      assert t / o * o == t;
    }
  }

  /** What the other shapes compute from two cells of a row. */
  ghost function Computed(shape: Shape, row: Row): real
    requires !IsSpread(shape) && HasNumber(row, shape.left) && HasNumber(row, shape.right)
  {
    match shape
    case Product(a, b) => row[a].number * row[b].number
    case Sum(a, b) => row[a].number + row[b].number
    case Difference(a, b) => row[a].number - row[b].number
  }

  lemma DerivedIs(shape: Shape, target: string, row: Row)
    requires !IsSpread(shape)
    ensures TargetAndDerived(shape, target)(row).Some? <==> UsesRow(shape, target, row)
    ensures UsesRow(shape, target, row) ==>
      TargetAndDerived(shape, target)(row) == Some((row[target].number, Computed(shape, row)))
  {
    var a, b := Num(row, shape.left), Num(row, shape.right);
    if a.Some? && b.Some? { assert Combine(shape, a.value, b.value) == Computed(shape, row); }
  }

  /** The share of the fit that a group of this size is worth: all of it from twice the minimum on. */
  ghost predicate IsWorth(confidence: real, fit: real, size: nat, minGroupSize: nat) {
    if size >= 2 * minGroupSize then confidence == fit
    else confidence * (2 * minGroupSize) as real == fit * size as real
  }

  lemma ConfidenceIs(fit: real, size: nat, minGroupSize: nat)
    requires minGroupSize >= 1
    ensures IsWorth(Confidence(fit, size, minGroupSize), fit, size, minGroupSize)
  {
    var s, m := size as real, (minGroupSize * 2) as real;
    ShareBounds(s, m);
    var q := s / m;
    assert q * m == s;
    assert fit * q * m == fit * (q * m);
  }

  /** Tested are the shapes with enough rows that have their numbers, a failing row that has them, and a fit. */
  lemma TestedIff(shape: Shape, target: string, group: seq<Row>, failing: Row, minGroupSize: nat, sqrt: real -> real)
    requires minGroupSize >= 1
    ensures var t, size := Test(shape, target, group, failing, minGroupSize, sqrt), |UsedRows(shape, target, group)|;
      && (t.Some? <==>
            && size >= minGroupSize && Predicts(shape, failing)
            && Usable(shape, target, group) >= 1 && FitShape(shape, target, group, sqrt).Some?)
      && (t.Some? ==>
            var e, fit := t.value, FitShape(shape, target, group, sqrt).value;
            && e.shape == shape && e.groupSize == size && e.fit == fit.quality && e.residual == fit.residual
            && IsWorth(e.confidence, e.fit, size, minGroupSize)
            && match shape
               case Constant => e.value == fit.coefficient
               case Ratio(m) => HasNumber(failing, m) && e.value == fit.coefficient * failing[m].number
               case _ =>
                 && HasNumber(failing, shape.left) && HasNumber(failing, shape.right)
                 && e.value == Computed(shape, failing))
  {
    UsedRowsCount(shape, target, group);
    hide FitShape, Usable, UsedRows, Confidence, IsWorth, Predict, Predicts;
    if Usable(shape, target, group) >= minGroupSize && FitShape(shape, target, group, sqrt).Some? {
      var fit := FitShape(shape, target, group, sqrt).value;
      ConfidenceIs(fit.quality, Usable(shape, target, group), minGroupSize);
      PredictionIs(shape, fit.coefficient, failing);
    }
  }

  lemma PredictionIs(shape: Shape, coefficient: real, failing: Row)
    ensures Predict(shape, coefficient, failing).Some? <==> Predicts(shape, failing)
    ensures Predicts(shape, failing) ==>
      var value := Predict(shape, coefficient, failing).value;
      match shape
      case Constant => value == coefficient
      case Ratio(m) => HasNumber(failing, m) && value == coefficient * failing[m].number
      case _ =>
        HasNumber(failing, shape.left) && HasNumber(failing, shape.right) && value == Computed(shape, failing)
  {
  }

  // --- an exact law decides ----------------------------------------------------------------------------------------

  /** The law holds on enough rows, and a constant or a ratio is not zero. */
  ghost predicate IsExactLaw(shape: Shape, target: string, group: seq<Row>, failing: Row, minGroupSize: nat, v: real) {
    && LawGives(shape, target, group, failing, v) && |UsedRows(shape, target, group)| >= minGroupSize
    && (IsSpread(shape) ==> v != 0.0)
  }

  lemma ExactLawIsTested(shape: Shape, target: string, group: seq<Row>, failing: Row, minGroupSize: nat,
                         sqrt: real -> real, v: real)
    requires minGroupSize >= 1 && IsExactLaw(shape, target, group, failing, minGroupSize, v)
    ensures Test(shape, target, group, failing, minGroupSize, sqrt).Some?
  {
    UsedRowsCount(shape, target, group);
    TestedIff(shape, target, group, failing, minGroupSize, sqrt);
    if IsSpread(shape) {
      var values, f := FilterMap(group, Quotient(shape, target)), Factor(shape, failing);
      QuotientsAreEqual(shape, target, group, failing, v);
      assert |values| == Usable(shape, target, group);
      hide FilterMap, Quotient, UsedRows, Test, LawOn;
      MeanOfEquals(values, Per(v, f));
      PerOfNonZero(v, f);
    }
  }

  lemma QuotientsAreEqual(shape: Shape, target: string, group: seq<Row>, failing: Row, v: real)
    requires IsSpread(shape) && LawGives(shape, target, group, failing, v)
    ensures Factor(shape, failing) != 0.0
    ensures forall q :: q in FilterMap(group, Quotient(shape, target)) ==> q == Per(v, Factor(shape, failing))
  {
    assert Factor(shape, failing) != 0.0;
    hide LawGives, Factor;
    LawOfSpread(shape, target, group, failing, v);
  }

  lemma PerOfNonZero(v: real, f: real)
    requires f != 0.0 && v != 0.0
    ensures Per(v, f) != 0.0
  {
    assert v / f * f == v;
  }

  /**
    The whole engine on the cells: where an offered law holds exactly on every comparable row that has its numbers, on
    enough of them, the engine answers with a value close to the law's, found by a law that holds exactly too, or it
    finds two exact laws, or nearly exact ones, that disagree.
  */
  lemma ExactLawDecides(target: string, failing: Row, rows: seq<Row>, columns: seq<ColumnMeta>, minGroupSize: nat,
                        minFit: real, sqrt: real -> real, shape: Shape, v: real)
    requires minGroupSize >= 1 && IsSquareRoot(sqrt) && minFit <= 1.0
    requires IsOffered(shape, Measures(columns, rows, target))
    requires var group := FilterMap(rows, ComparedWith(failing, Dimensions(columns, rows, target)));
      IsExactLaw(shape, target, group, failing, minGroupSize, v)
    ensures var r := Discover(target, failing, rows, columns, minGroupSize, minFit, sqrt);
      var group := FilterMap(rows, ComparedWith(failing, Dimensions(columns, rows, target)));
      && r.status in {Candidate, Ambiguous}
      && (r.status == Candidate ==>
            && AreClose(r.best.value.value, v, 0.01)
            && LawGives(r.best.value.shape, target, group, failing, r.best.value.value))
  {
    var group := Comparable(target, failing, rows, columns);
    GroupIsComparable(rows, failing, Dimensions(columns, rows, target));
    OfferedIff(shape, Measures(columns, rows, target));
    ExactLawIsTested(shape, target, group, failing, minGroupSize, sqrt, v);
    hide Test, LawGives, Close, AreClose, Discover, FilterMap, IsOffered, Shapes, Measures, Dimensions, UsedRows,
         IsSquareRoot;
    ExactLawPinsTheAnswer(target, failing, rows, columns, minGroupSize, minFit, sqrt, shape, v);
    var r := Discover(target, failing, rows, columns, minGroupSize, minFit, sqrt);
    if r.status == Candidate { CloseIff(r.best.value.value, v); }
  }

  // --- the answer from the evidence -------------------------------------------------------------------------------

  /** What one offered shape says, if it is tested. */
  ghost predicate IsEvidence(e: Evidence, target: string, group: seq<Row>, ms: seq<string>, failing: Row,
                             minGroupSize: nat, sqrt: real -> real)
    requires minGroupSize >= 1
  {
    exists shape :: IsOffered(shape, ms) && Test(shape, target, group, failing, minGroupSize, sqrt) == Some(e)
  }

  ghost predicate IsRival(top: Evidence, e: Evidence) {
    top.fit <= e.fit + 0.03 && !AreClose(e.value, top.value, 0.01)
  }

  ghost predicate IsBest(top: Evidence, evidence: iset<Evidence>, minFit: real) {
    top in evidence && top.fit >= minFit && forall e :: e in evidence ==> e.fit <= top.fit
  }

  /** No evidence fits, the best stands alone, or a rival disputes it. */
  ghost predicate IsAnswer(r: Result, evidence: iset<Evidence>, minFit: real) {
    && (r.status == NoRelationship <==> forall e :: e in evidence ==> e.fit < minFit)
    && (r.best.Some? <==> r.status == Candidate)
    && (r.status == Candidate ==>
          && IsBest(r.best.value, evidence, minFit)
          && forall e :: e in evidence && e.fit >= minFit ==> !IsRival(r.best.value, e))
    && (r.status == Ambiguous ==>
          exists top, e :: IsBest(top, evidence, minFit) && e in evidence && e.fit >= minFit && IsRival(top, e))
  }

  /** A group that is too small is the only one without a test; otherwise the evidence of the offered shapes decides. */
  lemma EvidenceDecides(target: string, failing: Row, rows: seq<Row>, columns: seq<ColumnMeta>, minGroupSize: nat,
                        minFit: real, sqrt: real -> real)
    requires minGroupSize >= 1
    ensures var r := Discover(target, failing, rows, columns, minGroupSize, minFit, sqrt);
      var ms := Measures(columns, rows, target);
      var group := FilterMap(rows, ComparedWith(failing, Dimensions(columns, rows, target)));
      && r.groupSize == |group| && (r.status == InsufficientGroup <==> |group| < minGroupSize)
      && (|group| >= minGroupSize ==>
            IsAnswer(r, (iset e: Evidence | IsEvidence(e, target, group, ms, failing, minGroupSize, sqrt)), minFit))
  {
    var group, ms := Comparable(target, failing, rows, columns), Measures(columns, rows, target);
    GroupIsComparable(rows, failing, Dimensions(columns, rows, target));
    if |group| >= minGroupSize {
      var candidates := FilterMap(Shapes(ms), Tester(target, group, failing, minGroupSize, sqrt));
      var evidence := iset e: Evidence | IsEvidence(e, target, group, ms, failing, minGroupSize, sqrt);
      forall e: Evidence ensures e in candidates <==> e in evidence {
        TestedAre(e, target, group, ms, failing, minGroupSize, sqrt);
      }
      DiscoverChooses(target, failing, rows, columns, minGroupSize, minFit, sqrt);
      AnswerOf(candidates, evidence, |group|, minFit);
    } else {
      hide FilterMap, Measures, Dimensions;
    }
  }

  lemma AnswerOf(candidates: seq<Evidence>, evidence: iset<Evidence>, groupSize: nat, minFit: real)
    requires forall e: Evidence :: e in candidates <==> e in evidence
    ensures var r := Choose(candidates, groupSize, minFit);
      IsAnswer(r, evidence, minFit) && r.groupSize == groupSize && r.status != InsufficientGroup
  {
    ChoiceIsExact(candidates, groupSize, minFit);
    var r := Choose(candidates, groupSize, minFit);
    hide Choose, Competes, IsRival;
    forall top, e ensures Competes(top, e) <==> IsRival(top, e) { RivalIff(top, e); }
    if r.status == Ambiguous {
      var top, e :| IsTop(top, candidates, minFit) && Qualifies(e, candidates, minFit) && Competes(top, e);
      assert IsBest(top, evidence, minFit) && e in evidence && IsRival(top, e);
    }
    if r.status == NoRelationship {
      forall e | e in evidence ensures e.fit < minFit { assert !Qualifies(e, candidates, minFit); }
    }
  }

  lemma RivalIff(top: Evidence, e: Evidence)
    ensures Competes(top, e) <==> IsRival(top, e)
  {
    CompetesIff(top, e);
  }

  lemma DiscoverChooses(target: string, failing: Row, rows: seq<Row>, columns: seq<ColumnMeta>, minGroupSize: nat,
                        minFit: real, sqrt: real -> real)
    requires minGroupSize >= 1 && |Comparable(target, failing, rows, columns)| >= minGroupSize
    ensures var group := Comparable(target, failing, rows, columns);
      Discover(target, failing, rows, columns, minGroupSize, minFit, sqrt)
        == Choose(FilterMap(Shapes(Measures(columns, rows, target)),
                            Tester(target, group, failing, minGroupSize, sqrt)), |group|, minFit)
  {
    hide Choose, FilterMap, Shapes, Measures;
  }

  lemma TestedAre(e: Evidence, target: string, group: seq<Row>, ms: seq<string>, failing: Row, minGroupSize: nat,
                  sqrt: real -> real)
    requires minGroupSize >= 1
    ensures e in FilterMap(Shapes(ms), Tester(target, group, failing, minGroupSize, sqrt)) <==>
      IsEvidence(e, target, group, ms, failing, minGroupSize, sqrt)
  {
    FilterMapMember(Shapes(ms), Tester(target, group, failing, minGroupSize, sqrt), e);
    forall shape ensures shape in Shapes(ms) <==> IsOffered(shape, ms) { OfferedIff(shape, ms); }
    hide Shapes, FilterMap, Test, IsOffered;
  }
}
