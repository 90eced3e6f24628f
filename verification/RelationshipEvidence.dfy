/**
  Numeric relationships: five laws are fitted to the rows comparable with the failing one, and the best fit decides.
*/
module RelationshipEvidence {
  import opened Collections
  import opened Text

  const IDENTIFIER_MIN_DISTINCT: real := 95.0
  const NUMERIC_PROMOTION_SAMPLE: nat := 20
  const MAX_MEASURES: nat := 15
  const MARGIN: real := 0.03

  /** A cell; NonFinite is a float that is NaN or infinite. */
  datatype Cell = Null | Number(number: real) | NonFinite(name: string) | Flag(flag: bool) | Label(text: string)

  type Row = map<string, Cell>

  datatype Role = Identifier | Dimension | Measure | Other

  datatype ColumnMeta = ColumnMeta(name: string, dataType: string, isPrimaryKey: bool, distinct: Option<real>)

  datatype Shape =
    | Constant
    | Ratio(column: string)
    | Product(left: string, right: string)
    | Sum(left: string, right: string)
    | Difference(left: string, right: string)

  datatype Evidence = Evidence(shape: Shape, value: real, groupSize: nat, fit: real, residual: real, confidence: real)

  datatype Result = Result(status: Status, groupSize: nat, best: Option<Evidence>, rejected: seq<Evidence>)

  /** What a fit says: the coefficient, how good it is, and the error behind that. */
  datatype Fit = Fit(coefficient: real, quality: real, residual: real)

  function Get(row: Row, c: string): Cell {
    if c in row then row[c] else Null
  }

  /** `_as_float` */
  function AsFloat(c: Cell): Option<real> {
    if c.Number? then Some(c.number) else None
  }

  function Num(row: Row, c: string): Option<real> {
    AsFloat(Get(row, c))
  }

  function Abs(x: real): real { if x < 0.0 then -x else x }

  function Max(x: real, y: real): real { if x < y then y else x }

  /** The square root used by the standard deviation. */
  ghost predicate IsSquareRoot(sqrt: real -> real) {
    forall x :: x >= 0.0 ==> sqrt(x) >= 0.0 && sqrt(x) * sqrt(x) == x
  }

  // --- column roles ------------------------------------------------------------------

  function PresentIn(name: string): Row -> Option<Cell> {
    (row: Row) => if Get(row, name) == Null then None else Some(Get(row, name))
  }

  function DerivedDistinct(name: string, rows: seq<Row>): Option<real> {
    var values := FilterMap(rows, PresentIn(name));
    if values == [] then None else Some(100.0 * (|set v | v in values| as real) / |values| as real)
  }

  function Classify(meta: ColumnMeta, sample: seq<Row>): Role {
    if meta.isPrimaryKey then Identifier
    else
      var distinct := if meta.distinct.Some? then meta.distinct else DerivedDistinct(meta.name, sample);
      var high := distinct.Some? && distinct.value >= IDENTIFIER_MIN_DISTINCT;
      if UpperCase(meta.dataType) in {"INTEGER", "DECIMAL"} then
        if high && |sample| >= NUMERIC_PROMOTION_SAMPLE then Identifier else Measure
      else if UpperCase(meta.dataType) in {"STRING", "TEXT", "BOOLEAN"} then
        if high then Identifier else Dimension
      else Other
  }

  /** Assignment into an insertion-ordered dictionary. */
  function Assign(roles: seq<(string, Role)>, name: string, role: Role): seq<(string, Role)> {
    if roles == [] then [(name, role)]
    else if roles[0].0 == name then [(name, role)] + roles[1..]
    else [roles[0]] + Assign(roles[1..], name, role)
  }

  /** `classify_columns` */
  function Roles(columns: seq<ColumnMeta>, sample: seq<Row>): seq<(string, Role)> {
    if columns == [] then []
    else
      var last := columns[|columns| - 1];
      Assign(Roles(columns[..|columns| - 1], sample), last.name, Classify(last, sample))
  }

  /** The last column of a name, whose role the dictionary keeps. */
  ghost function LastNamed(columns: seq<ColumnMeta>, name: string): Option<ColumnMeta> {
    if columns == [] then None
    else if columns[|columns| - 1].name == name then Some(columns[|columns| - 1])
    else LastNamed(columns[..|columns| - 1], name)
  }

  /** Assigning to a known name keeps the order of names, and a new name comes last. */
  lemma {:induction false} AssignedNames(roles: seq<(string, Role)>, name: string, role: Role)
    ensures var next := Assign(roles, name, role);
      if exists k :: 0 <= k < |roles| && roles[k].0 == name then
        |next| == |roles| && forall k :: 0 <= k < |roles| ==> next[k].0 == roles[k].0
      else next == roles + [(name, role)]
  {
    if roles != [] && roles[0].0 != name {
      AssignedNames(roles[1..], name, role);
      if k :| 0 <= k < |roles[1..]| && roles[1..][k].0 == name { assert roles[k + 1].0 == name; }
      if k :| 0 <= k < |roles| && roles[k].0 == name { assert roles[1..][k - 1].0 == name; }
    }
  }

  ghost predicate HasDistinctNames(roles: seq<(string, Role)>) {
    forall i, j :: 0 <= i < j < |roles| ==> roles[i].0 != roles[j].0
  }

  lemma AssignedAreDistinct(roles: seq<(string, Role)>, name: string, role: Role)
    requires HasDistinctNames(roles)
    ensures HasDistinctNames(Assign(roles, name, role))
  {
    AssignedNames(roles, name, role);
    hide Assign;
  }

  lemma {:induction false} AssignedEntries(roles: seq<(string, Role)>, name: string, role: Role, entry: (string, Role))
    requires HasDistinctNames(roles)
    ensures entry in Assign(roles, name, role) <==> entry == (name, role) || (entry in roles && entry.0 != name)
  {
    if roles != [] {
      var rest := roles[1..];
      assert roles == [roles[0]] + rest;
      assert forall i :: 0 <= i < |rest| ==> rest[i] == roles[i + 1];
      if roles[0].0 != name {
        AssignedEntries(rest, name, role, entry);
      } else if entry in rest {
        var i :| 0 <= i < |rest| && rest[i] == entry;
        assert roles[i + 1].0 != roles[0].0;
      }
    }
  }

  /** Each name has one role, that of its last column. */
  lemma {:induction false} RolesFollowTheLastColumn(columns: seq<ColumnMeta>, sample: seq<Row>, entry: (string, Role))
    ensures var roles := Roles(columns, sample);
      && (forall i, j :: 0 <= i < j < |roles| ==> roles[i].0 != roles[j].0)
      && (entry in roles <==>
            LastNamed(columns, entry.0).Some? && entry.1 == Classify(LastNamed(columns, entry.0).value, sample))
  {
    if columns != [] {
      var before, last := columns[..|columns| - 1], columns[|columns| - 1];
      RolesFollowTheLastColumn(before, sample, entry);
      hide Classify;
      AssignedEntries(Roles(before, sample), last.name, Classify(last, sample), entry);
      AssignedAreDistinct(Roles(before, sample), last.name, Classify(last, sample));
    }
  }

  function NamedIf(role: Role, target: string): ((string, Role)) -> Option<string> {
    (entry: (string, Role)) => if entry.1 == role && entry.0 != target then Some(entry.0) else None
  }

  function Dimensions(columns: seq<ColumnMeta>, sample: seq<Row>, target: string): seq<string> {
    FilterMap(Roles(columns, sample), NamedIf(Dimension, target))
  }

  function Measures(columns: seq<ColumnMeta>, sample: seq<Row>, target: string): (r: seq<string>)
    ensures |r| <= MAX_MEASURES
  {
    var all := FilterMap(Roles(columns, sample), NamedIf(Measure, target));
    if |all| > MAX_MEASURES then all[..MAX_MEASURES] else all
  }

  // --- the comparable group -------------------------------------------------------------

  function Otherwise(failing: Row): Row -> Option<Row> {
    (row: Row) => if row != failing then Some(row) else None
  }

  function Matching(failing: Row, dimensions: seq<string>): Row -> Option<Row> {
    (row: Row) => if forall d :: d in dimensions ==> Get(row, d) == Get(failing, d) then Some(row) else None
  }

  /** The rows that agree with the failing row on every dimension; all of them when there is none. */
  function Group(rows: seq<Row>, failing: Row, dimensions: seq<string>): seq<Row> {
    FilterMap(FilterMap(rows, Otherwise(failing)), Matching(failing, dimensions))
  }

  // --- the shapes tested -----------------------------------------------------------------

  function With(a: string, others: seq<string>): seq<(string, string)> {
    if others == [] then [] else [(a, others[0])] + With(a, others[1..])
  }

  /** `combinations(measures, 2)` */
  function Combinations(ms: seq<string>): seq<(string, string)> {
    if ms == [] then [] else With(ms[0], ms[1..]) + Combinations(ms[1..])
  }

  /** `permutations(measures, 2)`, from position `i` on. */
  function Permutations(ms: seq<string>, i: nat): seq<(string, string)>
    requires i <= |ms|
    decreases |ms| - i
  {
    if i == |ms| then [] else With(ms[i], ms[..i] + ms[i + 1..]) + Permutations(ms, i + 1)
  }

  function Ratios(ms: seq<string>): seq<Shape> {
    if ms == [] then [] else [Ratio(ms[0])] + Ratios(ms[1..])
  }

  function Shaped(pairs: seq<(string, string)>, shape: (string, string) -> Shape): seq<Shape> {
    if pairs == [] then [] else [shape(pairs[0].0, pairs[0].1)] + Shaped(pairs[1..], shape)
  }

  function ProductOf(): (string, string) -> Shape { (a, b) => Product(a, b) }
  function SumOf(): (string, string) -> Shape { (a, b) => Sum(a, b) }
  function DifferenceOf(): (string, string) -> Shape { (a, b) => Difference(a, b) }

  /** Every shape, in the order tested. */
  function Shapes(ms: seq<string>): seq<Shape> {
    [Constant] + Ratios(ms) + Shaped(Combinations(ms), ProductOf()) + Shaped(Combinations(ms), SumOf())
    + Shaped(Permutations(ms, 0), DifferenceOf())
  }

  // --- fitting ---------------------------------------------------------------------------

  function Total(xs: seq<real>): real {
    if xs == [] then 0.0 else xs[0] + Total(xs[1..])
  }

  function Mean(xs: seq<real>): real
    requires xs != []
  {
    Total(xs) / |xs| as real
  }

  function Square(d: real): real { d * d }

  function SquaredDeviations(xs: seq<real>, mean: real): (r: seq<real>)
    ensures |r| == |xs|
  {
    if xs == [] then [] else [Square(xs[0] - mean)] + SquaredDeviations(xs[1..], mean)
  }

  /** The population variance. */
  function Variance(xs: seq<real>): real
    requires xs != []
  {
    Mean(SquaredDeviations(xs, Mean(xs)))
  }

  /** `_fit_constant`, and `_fit_ratio` on the ratios: one minus the coefficient of variation. */
  function FitSpread(values: seq<real>, sqrt: real -> real): Option<Fit>
    requires values != []
  {
    var mean := Mean(values);
    if mean == 0.0 then None
    else
      var deviation := if |values| > 1 then sqrt(Variance(values)) else 0.0;
      var cv := Abs(deviation / mean);
      Some(Fit(mean, Max(0.0, 1.0 - cv), cv))
  }

  function RelativeError(t: real, d: real): real {
    Abs(t - d) / Max(Max(Abs(t), Abs(d)), 0.000000001)
  }

  function Errors(pairs: seq<(real, real)>): (r: seq<real>)
    ensures |r| == |pairs|
  {
    if pairs == [] then [] else [RelativeError(pairs[0].0, pairs[0].1)] + Errors(pairs[1..])
  }

  /** `_fit_derived`: one minus the mean relative error. */
  function FitDerived(pairs: seq<(real, real)>): Fit
    requires pairs != []
  {
    var err := Mean(Errors(pairs));
    Fit(1.0, Max(0.0, 1.0 - err), err)
  }

  function Confidence(fit: real, size: nat, minGroupSize: nat): real
    requires minGroupSize >= 1
  {
    fit * Minimum(1.0, size as real / (minGroupSize * 2) as real)
  }

  predicate IsSpread(shape: Shape) { shape.Constant? || shape.Ratio? }

  /** The number a spread shape expects to be constant, on a row that has it. */
  function Quotient(shape: Shape, target: string): Row -> Option<real>
    requires IsSpread(shape)
  {
    (row: Row) =>
      match (shape, Num(row, target))
      case (Constant, t) => t
      case (Ratio(m), Some(t)) =>
        var o := Num(row, m);
        if o.None? || o.value == 0.0 then None else Some(t / o.value)
      case _ => None
  }

  function Combine(shape: Shape, a: real, b: real): real
    requires !IsSpread(shape)
  {
    match shape
    case Product(_, _) => a * b
    case Sum(_, _) => a + b
    case Difference(_, _) => a - b
  }

  /** What a derived shape computes for a row that has both columns. */
  function Derive(shape: Shape, row: Row): Option<real>
    requires !IsSpread(shape)
  {
    var a, b := Num(row, shape.left), Num(row, shape.right);
    if a.None? || b.None? then None else Some(Combine(shape, a.value, b.value))
  }

  function TargetAndDerived(shape: Shape, target: string): Row -> Option<(real, real)>
    requires !IsSpread(shape)
  {
    (row: Row) =>
      var t, d := Num(row, target), Derive(shape, row);
      if t.None? || d.None? then None else Some((t.value, d.value))
  }

  function Times(x: real, y: real): real { x * y }

  /** What the fitted shape says about the failing row. */
  function Predict(shape: Shape, coefficient: real, failing: Row): Option<real> {
    match shape
    case Constant => Some(coefficient)
    case Ratio(m) =>
      var f := Num(failing, m);
      if f.None? || f.value == 0.0 then None else Some(Times(coefficient, f.value))
    case _ => Derive(shape, failing)
  }

  /** How many rows a shape can be tested on. */
  function Usable(shape: Shape, target: string, group: seq<Row>): nat {
    if IsSpread(shape) then |FilterMap(group, Quotient(shape, target))|
    else |FilterMap(group, TargetAndDerived(shape, target))|
  }

  function FitShape(shape: Shape, target: string, group: seq<Row>, sqrt: real -> real): Option<Fit>
    requires Usable(shape, target, group) >= 1
  {
    if IsSpread(shape) then FitSpread(FilterMap(group, Quotient(shape, target)), sqrt)
    else Some(FitDerived(FilterMap(group, TargetAndDerived(shape, target))))
  }

  /** One shape tested: enough usable rows, a fit, and a prediction for the failing row. */
  function Test(shape: Shape, target: string, group: seq<Row>, failing: Row, minGroupSize: nat,
                sqrt: real -> real): Option<Evidence>
    requires minGroupSize >= 1
  {
    var size := Usable(shape, target, group);
    if size < minGroupSize then None
    else
      var fit := FitShape(shape, target, group, sqrt);
      if fit.None? then None
      else
        var value := Predict(shape, fit.value.coefficient, failing);
        if value.None? then None
        else Some(Evidence(shape, value.value, size, fit.value.quality, fit.value.residual,
                           Confidence(fit.value.quality, size, minGroupSize)))
  }

  function Tester(target: string, group: seq<Row>, failing: Row, minGroupSize: nat,
                  sqrt: real -> real): Shape -> Option<Evidence>
    requires minGroupSize >= 1
  {
    (shape: Shape) => Test(shape, target, group, failing, minGroupSize, sqrt)
  }

  lemma TesterTests(shape: Shape, target: string, group: seq<Row>, failing: Row, minGroupSize: nat, sqrt: real -> real)
    requires minGroupSize >= 1
    ensures Tester(target, group, failing, minGroupSize, sqrt)(shape)
         == Test(shape, target, group, failing, minGroupSize, sqrt)
  {
  }

  // --- choosing ----------------------------------------------------------------------------

  function InsertByFit(e: Evidence, s: seq<Evidence>): seq<Evidence> {
    if s == [] || s[0].fit <= e.fit then [e] + s else [s[0]] + InsertByFit(e, s[1..])
  }

  /** `sorted(..., key=fit_quality, reverse=True)`, which is stable. */
  function SortByFit(s: seq<Evidence>): seq<Evidence> {
    if s == [] then [] else InsertByFit(s[0], SortByFit(s[1..]))
  }

  function FitsAtLeast(minFit: real): Evidence -> Option<Evidence> {
    (e: Evidence) => if e.fit >= minFit then Some(e) else None
  }

  /** `isclose(a, b, rel_tol=..., abs_tol=1e-6)` */
  predicate IsClose(a: real, b: real, relative: real) {
    Abs(a - b) <= Max(relative * Max(Abs(a), Abs(b)), 0.000001)
  }

  predicate Close(a: real, b: real) { IsClose(a, b, 0.01) }

  predicate Competes(top: Evidence, e: Evidence) {
    top.fit - e.fit <= MARGIN && !Close(e.value, top.value)
  }

  function Choose(candidates: seq<Evidence>, groupSize: nat, minFit: real): Result {
    var qualifying := SortByFit(FilterMap(candidates, FitsAtLeast(minFit)));
    var all := SortByFit(candidates);
    if qualifying == [] then Result(NoRelationship, groupSize, None, all)
    else if exists e :: e in qualifying[1..] && Competes(qualifying[0], e) then Result(Ambiguous, groupSize, None, all)
    else Result(Candidate, groupSize, Some(qualifying[0]), FilterMap(all, AllBut(qualifying[0])))
  }

  function AllBut(top: Evidence): Evidence -> Option<Evidence> {
    (e: Evidence) => if e != top then Some(e) else None
  }

  function Discover(target: string, failing: Row, rows: seq<Row>, columns: seq<ColumnMeta>,
                    minGroupSize: nat, minFit: real, sqrt: real -> real): Result
    requires minGroupSize >= 1
  {
    var group := Group(rows, failing, Dimensions(columns, rows, target));
    if |group| < minGroupSize then Result(InsufficientGroup, |group|, None, [])
    else
      var shapes := Shapes(Measures(columns, rows, target));
      Choose(FilterMap(shapes, Tester(target, group, failing, minGroupSize, sqrt)), |group|, minFit)
  }

  // --- the loops -----------------------------------------------------------------------------

  /** `_numeric_pairs` and its three-column form: rows lacking a number are skipped. */
  method DerivedPairs(shape: Shape, target: string, group: seq<Row>) returns (out: seq<(real, real)>)
    requires !IsSpread(shape)
    ensures out == FilterMap(group, TargetAndDerived(shape, target))
  {
    out := [];
    for k := 0 to |group|
      invariant out == FilterMap(group[..k], TargetAndDerived(shape, target))
    {
      FilterMapNext(group, k, TargetAndDerived(shape, target));
      var t, a, b := Num(group[k], target), Num(group[k], shape.left), Num(group[k], shape.right);
      if t.Some? && a.Some? && b.Some? { out := out + [(t.value, Combine(shape, a.value, b.value))]; }
    }
    assert group[..|group|] == group;
  }

  lemma FilterMapNext<T, U>(xs: seq<T>, k: nat, f: T -> Option<U>)
    requires k < |xs|
    ensures FilterMap(xs[..k + 1], f) == FilterMap(xs[..k], f) + (match f(xs[k]) case Some(y) => [y] case None => [])
  {
    assert xs[..k + 1] == xs[..k] + [xs[k]];
    FilterMapSnoc(xs[..k], xs[k], f);
  }

  method FitDerivedLoop(pairs: seq<(real, real)>) returns (fit: Option<Fit>)
    ensures fit == if pairs == [] then None else Some(FitDerived(pairs))
  {
    if pairs == [] { return None; }
    var total := 0.0;
    for k := 0 to |pairs|
      invariant total + Total(Errors(pairs[k..])) == Total(Errors(pairs))
    {
      assert pairs[k..][1..] == pairs[k + 1..];
      total := total + RelativeError(pairs[k].0, pairs[k].1);
    }
    var err := total / |pairs| as real;
    fit := Some(Fit(1.0, Max(0.0, 1.0 - err), err));
  }

  method TestDerived(shape: Shape, target: string, group: seq<Row>, failing: Row, minGroupSize: nat,
                     sqrt: real -> real) returns (e: Option<Evidence>)
    requires minGroupSize >= 1 && !IsSpread(shape)
    ensures e == Test(shape, target, group, failing, minGroupSize, sqrt)
  {
    var pairs := DerivedPairs(shape, target, group);
    if |pairs| < minGroupSize { return None; }
    var fit := FitDerivedLoop(pairs);
    if fit.None? { return None; }
    var fa, fb := Num(failing, shape.left), Num(failing, shape.right);
    if fa.None? || fb.None? { return None; }
    e := Some(Evidence(shape, Combine(shape, fa.value, fb.value), |pairs|, fit.value.quality, fit.value.residual,
                       Confidence(fit.value.quality, |pairs|, minGroupSize)));
  }

  lemma NextShape(pairs: seq<(string, string)>, k: nat, shape: (string, string) -> Shape,
                  test: Shape -> Option<Evidence>)
    requires k < |pairs|
    ensures FilterMap(Shaped(pairs[k..], shape), test)
         == (match test(shape(pairs[k].0, pairs[k].1)) case Some(e) => [e] case None => [])
            + FilterMap(Shaped(pairs[k + 1..], shape), test)
  {
    assert pairs[k..][1..] == pairs[k + 1..];
  }

  lemma NextRatio(ms: seq<string>, k: nat, test: Shape -> Option<Evidence>)
    requires k < |ms|
    ensures FilterMap(Ratios(ms[k..]), test)
         == (match test(Ratio(ms[k])) case Some(e) => [e] case None => []) + FilterMap(Ratios(ms[k + 1..]), test)
  {
    assert ms[k..][1..] == ms[k + 1..];
  }

  /** One of the three pair loops. */
  method TestPairs(pairs: seq<(string, string)>, shape: (string, string) -> Shape, target: string, group: seq<Row>,
                   failing: Row, minGroupSize: nat, sqrt: real -> real) returns (found: seq<Evidence>)
    requires minGroupSize >= 1 && forall a, b :: !IsSpread(shape(a, b))
    ensures found == FilterMap(Shaped(pairs, shape), Tester(target, group, failing, minGroupSize, sqrt))
  {
    hide Test, Tester;
    ghost var test := Tester(target, group, failing, minGroupSize, sqrt);
    found := [];
    for k := 0 to |pairs|
      invariant found + FilterMap(Shaped(pairs[k..], shape), test) == FilterMap(Shaped(pairs, shape), test)
    {
      hide FilterMap, Shaped;
      NextShape(pairs, k, shape, test);
      TesterTests(shape(pairs[k].0, pairs[k].1), target, group, failing, minGroupSize, sqrt);
      var e := TestDerived(shape(pairs[k].0, pairs[k].1), target, group, failing, minGroupSize, sqrt);
      if e.Some? { found := found + [e.value]; }
    }
  }

  method TestSpreads(measures: seq<string>, target: string, group: seq<Row>, failing: Row, minGroupSize: nat,
                     sqrt: real -> real) returns (found: seq<Evidence>)
    requires minGroupSize >= 1
    ensures found == FilterMap([Constant] + Ratios(measures), Tester(target, group, failing, minGroupSize, sqrt))
  {
    hide Test, Tester;
    ghost var test, all := Tester(target, group, failing, minGroupSize, sqrt), [Constant] + Ratios(measures);
    TesterTests(Constant, target, group, failing, minGroupSize, sqrt);
    var constant := Test(Constant, target, group, failing, minGroupSize, sqrt);
    found := if constant.Some? then [constant.value] else [];
    assert all[1..] == Ratios(measures);
    for k := 0 to |measures|
      invariant found + FilterMap(Ratios(measures[k..]), test) == FilterMap(all, test)
    {
      hide FilterMap, Ratios;
      NextRatio(measures, k, test);
      TesterTests(Ratio(measures[k]), target, group, failing, minGroupSize, sqrt);
      var e := Test(Ratio(measures[k]), target, group, failing, minGroupSize, sqrt);
      if e.Some? { found := found + [e.value]; }
    }
  }

  /** `discover_relationship_evidence` */
  method DiscoverRelationshipEvidence(target: string, failing: Row, rows: seq<Row>, columns: seq<ColumnMeta>,
                                      minGroupSize: nat, minFit: real, sqrt: real -> real) returns (r: Result)
    requires minGroupSize >= 1
    ensures r == Discover(target, failing, rows, columns, minGroupSize, minFit, sqrt)
  {
    var dimensions, measures := Dimensions(columns, rows, target), Measures(columns, rows, target);
    var group := Group(rows, failing, dimensions);
    if |group| < minGroupSize { return Result(InsufficientGroup, |group|, None, []); }
    hide Test, Choose;
    var spreads := TestSpreads(measures, target, group, failing, minGroupSize, sqrt);
    var products := TestPairs(Combinations(measures), ProductOf(), target, group, failing, minGroupSize, sqrt);
    var sums := TestPairs(Combinations(measures), SumOf(), target, group, failing, minGroupSize, sqrt);
    var differences := TestPairs(Permutations(measures, 0), DifferenceOf(), target, group, failing, minGroupSize, sqrt);
    TestsInOrder(measures, Tester(target, group, failing, minGroupSize, sqrt));
    r := Choose(spreads + products + sums + differences, |group|, minFit);
  }

  lemma TestsInOrder(ms: seq<string>, test: Shape -> Option<Evidence>)
    ensures FilterMap(Shapes(ms), test)
         == FilterMap([Constant] + Ratios(ms), test) + FilterMap(Shaped(Combinations(ms), ProductOf()), test)
          + FilterMap(Shaped(Combinations(ms), SumOf()), test)
          + FilterMap(Shaped(Permutations(ms, 0), DifferenceOf()), test)
  {
    var a, b, c, d := [Constant] + Ratios(ms), Shaped(Combinations(ms), ProductOf()), Shaped(Combinations(ms), SumOf()),
                      Shaped(Permutations(ms, 0), DifferenceOf());
    FilterMapAppend(a + b + c, d, test);
    FilterMapAppend(a + b, c, test);
    FilterMapAppend(a, b, test);
  }

  // --- which shapes are tested ------------------------------------------------------------------

  lemma {:induction false} WithMembers(a: string, others: seq<string>, p: (string, string))
    ensures p in With(a, others) <==> p.0 == a && p.1 in others
  {
    if others != [] {
      WithMembers(a, others[1..], p);
      assert others == [others[0]] + others[1..];
    }
  }

  /** The unordered pairs are those of two positions, the first before the second. */
  lemma {:induction false} CombinationsAreOrderedPairs(ms: seq<string>, p: (string, string))
    ensures p in Combinations(ms) <==> exists i, j :: 0 <= i < j < |ms| && p == (ms[i], ms[j])
  {
    if ms != [] {
      WithMembers(ms[0], ms[1..], p);
      CombinationsAreOrderedPairs(ms[1..], p);
      if p in Combinations(ms[1..]) {
        var i, j :| 0 <= i < j < |ms[1..]| && p == (ms[1..][i], ms[1..][j]);
        assert p == (ms[i + 1], ms[j + 1]);
      } else if p in With(ms[0], ms[1..]) {
        var j :| 0 <= j < |ms[1..]| && ms[1..][j] == p.1;
        assert p == (ms[0], ms[j + 1]);
      }
      if i, j :| 0 <= i < j < |ms| && p == (ms[i], ms[j]) {
        if i == 0 {
          assert ms[1..][j - 1] in ms[1..];
        } else {
          assert p == (ms[1..][i - 1], ms[1..][j - 1]);
        }
      }
    }
  }

  /** The ordered pairs are those of any two different positions. */
  lemma {:induction false} PermutationsAreAllPairs(ms: seq<string>, i: nat, p: (string, string))
    requires i <= |ms|
    ensures p in Permutations(ms, i) <==> exists k, j :: i <= k < |ms| && 0 <= j < |ms| && k != j && p == (ms[k], ms[j])
    decreases |ms| - i
  {
    if i < |ms| {
      var others := ms[..i] + ms[i + 1..];
      WithMembers(ms[i], others, p);
      PermutationsAreAllPairs(ms, i + 1, p);
      forall j | 0 <= j < |ms| && j != i ensures ms[j] in others {
        assert ms[j] == if j < i then others[j] else others[j - 1];
      }
      if p in With(ms[i], others) {
        var j :| 0 <= j < |others| && others[j] == p.1;
        assert p == (ms[i], ms[if j < i then j else j + 1]);
      }
    }
  }

  // --- a perfect fit is the law ------------------------------------------------------------------

  /** What the shape multiplies its coefficient by on the failing row; zero when it cannot. */
  ghost function Factor(shape: Shape, failing: Row): real {
    if !shape.Ratio? then 1.0
    else if Num(failing, shape.column).None? then 0.0 else Num(failing, shape.column).value
  }

  ghost predicate HasNumber(row: Row, c: string) { c in row && row[c].Number? }

  /** The row has the numbers the shape needs. */
  ghost predicate UsesRow(shape: Shape, target: string, row: Row) {
    HasNumber(row, target) &&
    match shape
    case Constant => true
    case Ratio(m) => HasNumber(row, m) && row[m].number != 0.0
    case Product(a, b) => HasNumber(row, a) && HasNumber(row, b)
    case Sum(a, b) => HasNumber(row, a) && HasNumber(row, b)
    case Difference(a, b) => HasNumber(row, a) && HasNumber(row, b)
  }

  /** The law on one row that has the numbers; a coefficient is written through the value of the failing row. */
  ghost predicate LawOn(shape: Shape, target: string, row: Row, failing: Row, value: real)
    requires Predicts(shape, failing)
  {
    UsesRow(shape, target, row) ==>
      match shape
      case Constant => row[target].number == value
      case Ratio(m) => row[target].number * failing[m].number == value * row[m].number
      case Product(a, b) => row[target].number == row[a].number * row[b].number
      case Sum(a, b) => row[target].number == row[a].number + row[b].number
      case Difference(a, b) => row[target].number == row[a].number - row[b].number
  }

  /** The failing row has the numbers the shape's prediction needs. */
  ghost predicate Predicts(shape: Shape, failing: Row) {
    match shape
    case Constant => true
    case Ratio(m) => HasNumber(failing, m) && failing[m].number != 0.0
    case Product(a, b) => HasNumber(failing, a) && HasNumber(failing, b)
    case Sum(a, b) => HasNumber(failing, a) && HasNumber(failing, b)
    case Difference(a, b) => HasNumber(failing, a) && HasNumber(failing, b)
  }

  /** The law of a shape on every row that has the numbers it needs, and the value it gives the failing row. */
  ghost predicate LawGives(shape: Shape, target: string, group: seq<Row>, failing: Row, value: real) {
    && Predicts(shape, failing)
    && (forall r :: r in group ==> LawOn(shape, target, r, failing, value))
    && match shape
       case Constant => true
       case Ratio(_) => true
       case Product(a, b) => value == failing[a].number * failing[b].number
       case Sum(a, b) => value == failing[a].number + failing[b].number
       case Difference(a, b) => value == failing[a].number - failing[b].number
  }

  lemma HeadAndTail<T>(xs: seq<T>)
    requires xs != []
    ensures forall x :: x in xs <==> x == xs[0] || x in xs[1..]
  {
    assert xs == [xs[0]] + xs[1..];
  }

  lemma {:induction false} TotalOfNonNegatives(xs: seq<real>)
    requires forall x :: x in xs ==> x >= 0.0
    ensures Total(xs) >= 0.0
    ensures Total(xs) == 0.0 <==> forall x :: x in xs ==> x == 0.0
  {
    if xs != [] {
      var x := xs[0];
      assert x in xs;
      HeadAndTail(xs);
      TotalOfNonNegatives(xs[1..]);
    }
  }

  lemma {:induction false} TotalOfEquals(xs: seq<real>, v: real)
    requires forall x :: x in xs ==> x == v
    ensures Total(xs) == v * |xs| as real
  {
    if xs != [] {
      var x := xs[0];
      assert x in xs;
      HeadAndTail(xs);
      TotalOfEquals(xs[1..], v);
    }
  }

  lemma MeanOfEquals(xs: seq<real>, v: real)
    requires xs != [] && forall x :: x in xs ==> x == v
    ensures Mean(xs) == v
  {
    TotalOfEquals(xs, v);
  }

  lemma QuotientOfNonNegative(x: real, n: real)
    requires x >= 0.0 && n > 0.0
    ensures x / n >= 0.0 && (x / n == 0.0 <==> x == 0.0)
  {
  }

  lemma MeanOfNonNegatives(xs: seq<real>)
    requires xs != [] && forall x :: x in xs ==> x >= 0.0
    ensures Mean(xs) >= 0.0
    ensures Mean(xs) == 0.0 <==> forall x :: x in xs ==> x == 0.0
  {
    TotalOfNonNegatives(xs);
    QuotientOfNonNegative(Total(xs), |xs| as real);
  }

  lemma SquareOf(d: real)
    ensures d != 0.0 ==> Square(d) > 0.0
    ensures d == 0.0 ==> Square(d) == 0.0
  {
    if d > 0.0 {
      SquareOfPositive(d);
    } else if d < 0.0 {
      SquareOfPositive(-d);
      assert Square(-d) == Square(d);
    }
  }

  lemma SquareOfPositive(d: real)
    requires d > 0.0
    ensures Square(d) > 0.0
  {
    calc { Square(d); == d * d; > d * 0.0; }
  }

  lemma {:induction false} DeviationAt(xs: seq<real>, mean: real, i: nat)
    requires i < |xs|
    ensures SquaredDeviations(xs, mean)[i] == Square(xs[i] - mean)
  {
    if i > 0 { DeviationAt(xs[1..], mean, i - 1); }
  }

  lemma DeviationsMembers(xs: seq<real>, mean: real)
    ensures forall d :: d in SquaredDeviations(xs, mean) ==> d >= 0.0
    ensures (forall d :: d in SquaredDeviations(xs, mean) ==> d == 0.0) <==> forall x :: x in xs ==> x == mean
  {
    hide Square;
    var ds := SquaredDeviations(xs, mean);
    forall i | 0 <= i < |xs| ensures ds[i] in ds && ds[i] >= 0.0 && (ds[i] == 0.0 <==> xs[i] == mean) {
      DeviationAt(xs, mean, i);
      SquareOf(xs[i] - mean);
    }
    hide SquaredDeviations;
    forall d | d in ds ensures d >= 0.0 {
      var i :| 0 <= i < |ds| && ds[i] == d;
      assert xs[i] == xs[i];
    }
    AllMatch(xs, mean, ds);
  }

  /** Two lists whose elements hit their values together. */
  lemma AllMatch(xs: seq<real>, v: real, ds: seq<real>)
    requires |xs| == |ds| && forall i :: 0 <= i < |xs| ==> (ds[i] == 0.0 <==> xs[i] == v)
    ensures (forall d :: d in ds ==> d == 0.0) <==> forall x :: x in xs ==> x == v
  {
    if forall d :: d in ds ==> d == 0.0 {
      forall x | x in xs ensures x == v {
        var i :| 0 <= i < |xs| && xs[i] == x;
        var d := ds[i];
        assert d in ds;
      }
    }
    if forall x :: x in xs ==> x == v {
      forall d | d in ds ensures d == 0.0 {
        var i :| 0 <= i < |ds| && ds[i] == d;
        var x := xs[i];
        assert x in xs;
      }
    }
  }

  lemma VarianceIsZeroIffEqual(xs: seq<real>)
    requires xs != []
    ensures Variance(xs) >= 0.0
    ensures Variance(xs) == 0.0 <==> forall x :: x in xs ==> x == Mean(xs)
  {
    DeviationsMembers(xs, Mean(xs));
    MeanOfNonNegatives(SquaredDeviations(xs, Mean(xs)));
  }

  lemma AbsQuotientIsZero(s: real, m: real)
    requires m != 0.0
    ensures Abs(s / m) >= 0.0 && (Abs(s / m) == 0.0 <==> s == 0.0)
  {
  }

  /** The spread of values is zero exactly when they are all the same. */
  lemma SpreadIsPerfectIffEqual(values: seq<real>, sqrt: real -> real)
    requires values != [] && IsSquareRoot(sqrt) && FitSpread(values, sqrt).Some?
    ensures var fit := FitSpread(values, sqrt).value;
      && 0.0 <= fit.quality <= 1.0 && fit.residual >= 0.0 && fit.coefficient == Mean(values)
      && (fit.quality == 1.0 <==> forall v :: v in values ==> v == Mean(values))
  {
    VarianceIsZeroIffEqual(values);
    var variance, mean := Variance(values), Mean(values);
    if |values| == 1 {
      assert Total(values) == values[0] + Total(values[1..]) == mean;
      HeadAndTail(values);
    }
    SquareOf(sqrt(variance));
    assert variance == Square(sqrt(variance));
    var deviation := if |values| > 1 then sqrt(variance) else 0.0;
    hide Variance, Mean, Square, IsSquareRoot;
    assert deviation == 0.0 <==> forall v :: v in values ==> v == mean;
    AbsQuotientIsZero(deviation, mean);
  }

  lemma RelativeErrorIsZeroIffEqual(t: real, d: real)
    ensures RelativeError(t, d) >= 0.0
    ensures RelativeError(t, d) == 0.0 <==> t == d
  {
    QuotientOfNonNegative(Abs(t - d), Max(Max(Abs(t), Abs(d)), 0.000000001));
  }

  lemma {:induction false} ErrorAt(pairs: seq<(real, real)>, i: nat)
    requires i < |pairs|
    ensures Errors(pairs)[i] == RelativeError(pairs[i].0, pairs[i].1)
  {
    if i > 0 { ErrorAt(pairs[1..], i - 1); }
  }

  lemma ErrorsMembers(pairs: seq<(real, real)>)
    ensures forall e :: e in Errors(pairs) ==> e >= 0.0
    ensures (forall e :: e in Errors(pairs) ==> e == 0.0) <==> forall p :: p in pairs ==> p.0 == p.1
  {
    var es := Errors(pairs);
    forall i | 0 <= i < |pairs| ensures es[i] >= 0.0 && (es[i] == 0.0 <==> pairs[i].0 == pairs[i].1) {
      ErrorAt(pairs, i);
      RelativeErrorIsZeroIffEqual(pairs[i].0, pairs[i].1);
    }
    hide RelativeError, Errors;
    if forall e :: e in es ==> e == 0.0 {
      forall p | p in pairs ensures p.0 == p.1 {
        var i :| 0 <= i < |pairs| && pairs[i] == p;
        var e := es[i];
        assert e in es;
      }
    }
  }

  lemma DerivedIsPerfectIffEqual(pairs: seq<(real, real)>)
    requires pairs != []
    ensures var fit := FitDerived(pairs);
      && 0.0 <= fit.quality <= 1.0 && fit.residual >= 0.0
      && (fit.quality == 1.0 <==> forall p :: p in pairs ==> p.0 == p.1)
  {
    ErrorsMembers(pairs);
    MeanOfNonNegatives(Errors(pairs));
  }

  lemma FilteredAll<U(!new)>(group: seq<Row>, f: Row -> Option<U>, good: U -> bool)
    ensures (forall y :: y in FilterMap(group, f) ==> good(y))
       <==> forall r :: r in group ==> f(r).None? || good(f(r).value)
  {
    forall y ensures y in FilterMap(group, f) <==> exists r :: r in group && f(r) == Some(y) {
      FilterMapMember(group, f, y);
    }
    if forall y :: y in FilterMap(group, f) ==> good(y) {
      forall r | r in group ensures f(r).None? || good(f(r).value) {
        if f(r).Some? {
          var y := f(r).value;
          assert f(r) == Some(y);
          assert y in FilterMap(group, f);
        }
      }
    }
  }

  lemma Scale(t: real, o: real, f: real)
    requires o != 0.0 && f != 0.0
    ensures o * f != 0.0 && (t * f) / (o * f) == t / o
  {
    var k := t / o;
    assert t == k * o;
    assert t * f == k * (o * f);
  }

  lemma CrossMultiply(t: real, o: real, f: real, v: real)
    requires o != 0.0 && f != 0.0
    ensures t / o == v / f <==> t * f == v * o
  {
    var k := t / o;
    assert t == k * o;
    if k == v / f {
      assert v == k * f;
      assert t * f == k * (o * f) && v * o == k * (o * f);
    }
    if t * f == v * o {
      Scale(t, o, f);
      Scale(v, f, o);
    }
  }

  function Per(value: real, factor: real): real
    requires factor != 0.0
  {
    value / factor
  }

  lemma LawOfSpreadOn(shape: Shape, target: string, row: Row, failing: Row, value: real)
    requires IsSpread(shape) && Factor(shape, failing) != 0.0
    ensures Predicts(shape, failing)
    ensures LawOn(shape, target, row, failing, value) <==>
      (Quotient(shape, target)(row).None? || Quotient(shape, target)(row).value == Per(value, Factor(shape, failing)))
  {
    if shape.Ratio? && Quotient(shape, target)(row).Some? {
      CrossMultiply(Num(row, target).value, Num(row, shape.column).value, Factor(shape, failing), value);
    }
  }

  /** A spread shape's law says that its quotients are all one number. */
  lemma LawOfSpread(shape: Shape, target: string, group: seq<Row>, failing: Row, value: real)
    requires IsSpread(shape) && Factor(shape, failing) != 0.0
    ensures LawGives(shape, target, group, failing, value) <==>
      forall q :: q in FilterMap(group, Quotient(shape, target)) ==> q == Per(value, Factor(shape, failing))
  {
    FilteredAll(group, Quotient(shape, target), (q: real) => q == Per(value, Factor(shape, failing)));
    assert Predicts(shape, failing);
    hide LawOn, Quotient, FilterMap, Factor;
    forall r | r in group
      ensures LawOn(shape, target, r, failing, value) <==>
        (Quotient(shape, target)(r).None? || Quotient(shape, target)(r).value == Per(value, Factor(shape, failing)))
    {
      LawOfSpreadOn(shape, target, r, failing, value);
    }
  }

  lemma LawOfDerived(shape: Shape, target: string, group: seq<Row>, failing: Row, value: real)
    requires !IsSpread(shape) && Derive(shape, failing) == Some(value)
    ensures LawGives(shape, target, group, failing, value) <==>
      forall p :: p in FilterMap(group, TargetAndDerived(shape, target)) ==> p.0 == p.1
  {
    FilteredAll(group, TargetAndDerived(shape, target), (p: (real, real)) => p.0 == p.1);
    assert Predicts(shape, failing);
    forall r | r in group ensures LawOn(shape, target, r, failing, value) <==> DerivedAgrees(shape, target, r) { }
    hide LawOn, FilterMap;
  }

  ghost predicate DerivedAgrees(shape: Shape, target: string, row: Row)
    requires !IsSpread(shape)
  {
    var p := TargetAndDerived(shape, target)(row);
    p.Some? ==> p.value.0 == p.value.1
  }

  lemma PerIsInjective(a: real, b: real, f: real)
    requires f != 0.0 && Per(a, f) == Per(b, f)
    ensures a == b
  {
    assert a == a / f * f && b == b / f * f;
  }

  lemma SpreadTested(shape: Shape, target: string, group: seq<Row>, failing: Row, minGroupSize: nat, sqrt: real -> real)
    requires minGroupSize >= 1 && IsSpread(shape) && Test(shape, target, group, failing, minGroupSize, sqrt).Some?
    ensures var e, values := Test(shape, target, group, failing, minGroupSize, sqrt).value,
                             FilterMap(group, Quotient(shape, target));
      && values != [] && FitSpread(values, sqrt).Some? && Factor(shape, failing) != 0.0
      && e.fit == FitSpread(values, sqrt).value.quality && e.residual == FitSpread(values, sqrt).value.residual
      && Per(e.value, Factor(shape, failing)) == Mean(values)
  {
    hide Mean, Variance, Quotient, FilterMap, Confidence;
    var k, f := Mean(FilterMap(group, Quotient(shape, target))), Factor(shape, failing);
    assert k * f / f == k;
  }

  lemma PerfectSpread(shape: Shape, target: string, group: seq<Row>, failing: Row, minGroupSize: nat,
                         sqrt: real -> real, v: real)
    requires minGroupSize >= 1 && IsSquareRoot(sqrt)
    requires Test(shape, target, group, failing, minGroupSize, sqrt).Some?
    requires IsSpread(shape)
    ensures var e := Test(shape, target, group, failing, minGroupSize, sqrt).value;
      && 0.0 <= e.fit <= 1.0 && e.residual >= 0.0
      && (e.fit == 1.0 <==> LawGives(shape, target, group, failing, e.value))
      && (LawGives(shape, target, group, failing, v) ==> v == e.value)
  {
    var values, f := FilterMap(group, Quotient(shape, target)), Factor(shape, failing);
    SpreadTested(shape, target, group, failing, minGroupSize, sqrt);
    var e := Test(shape, target, group, failing, minGroupSize, sqrt).value;
    SpreadIsPerfectIffEqual(values, sqrt);
    hide *;
    LawOfSpread(shape, target, group, failing, e.value);
    LawOfSpread(shape, target, group, failing, v);
    if LawGives(shape, target, group, failing, v) {
      MeanOfEquals(values, Per(v, f));
      PerIsInjective(v, e.value, f);
    }
  }

  lemma PerfectDerived(shape: Shape, target: string, group: seq<Row>, failing: Row, minGroupSize: nat,
                         sqrt: real -> real, v: real)
    requires minGroupSize >= 1 && IsSquareRoot(sqrt)
    requires Test(shape, target, group, failing, minGroupSize, sqrt).Some?
    requires !IsSpread(shape)
    ensures var e := Test(shape, target, group, failing, minGroupSize, sqrt).value;
      && 0.0 <= e.fit <= 1.0 && e.residual >= 0.0
      && (e.fit == 1.0 <==> LawGives(shape, target, group, failing, e.value))
      && (LawGives(shape, target, group, failing, v) ==> v == e.value)
  {
    var e := Test(shape, target, group, failing, minGroupSize, sqrt).value;
    DerivedIsPerfectIffEqual(FilterMap(group, TargetAndDerived(shape, target)));
    LawOfDerived(shape, target, group, failing, e.value);
  }

  /** A tested shape fits perfectly exactly when its law holds on every usable row, and the law gives one value only. */
  lemma PerfectFitIffLaw(shape: Shape, target: string, group: seq<Row>, failing: Row, minGroupSize: nat,
                         sqrt: real -> real, v: real)
    requires minGroupSize >= 1 && IsSquareRoot(sqrt)
    requires Test(shape, target, group, failing, minGroupSize, sqrt).Some?
    ensures var e := Test(shape, target, group, failing, minGroupSize, sqrt).value;
      && 0.0 <= e.fit <= 1.0 && e.residual >= 0.0
      && (e.fit == 1.0 <==> LawGives(shape, target, group, failing, e.value))
      && (LawGives(shape, target, group, failing, v) ==> v == e.value)
  {
    hide Test, LawGives;
    if IsSpread(shape) {
      PerfectSpread(shape, target, group, failing, minGroupSize, sqrt, v);
    } else {
      PerfectDerived(shape, target, group, failing, minGroupSize, sqrt, v);
    }
  }

  /** Confidence never exceeds the fit, and reaches it once the group is twice the minimum. */
  lemma ConfidenceDiscountsTheFit(fit: real, size: nat, minGroupSize: nat)
    requires minGroupSize >= 1 && 0.0 <= fit <= 1.0
    ensures 0.0 <= Confidence(fit, size, minGroupSize) <= fit
    ensures size >= minGroupSize ==> Confidence(fit, size, minGroupSize) >= fit / 2.0
    ensures fit > 0.0 ==> (Confidence(fit, size, minGroupSize) == fit <==> size >= 2 * minGroupSize)
  {
    assert (minGroupSize * 2) as real / 2.0 == minGroupSize as real;
    var quotient := size as real / (minGroupSize * 2) as real;
    ShareBounds(size as real, (minGroupSize * 2) as real);
    ScaleDown(fit, Minimum(1.0, quotient));
    ScaleUp(fit, quotient);
  }

  lemma AtLeastShare(s: real, m: real, b: real)
    requires m > 0.0
    ensures s / m >= b <==> s >= b * m
  {
    var q := s / m;
    assert s == q * m;
    if q >= b { assert q * m >= b * m; } else { assert q * m < b * m; }
  }

  lemma ShareBounds(s: real, m: real)
    requires s >= 0.0 && m > 0.0
    ensures s / m >= 0.0 && (s >= m <==> s / m >= 1.0) && (s >= m / 2.0 ==> s / m >= 0.5)
  {
    AtLeastShare(s, m, 0.0);
    AtLeastShare(s, m, 0.5);
    AtLeastShare(s, m, 1.0);
  }

  lemma ScaleDown(fit: real, share: real)
    requires fit >= 0.0 && 0.0 <= share <= 1.0
    ensures 0.0 <= fit * share <= fit && (fit > 0.0 ==> (fit * share == fit <==> share == 1.0))
  {
    if share < 1.0 && fit > 0.0 { assert fit * share < fit * 1.0; }
  }

  lemma ScaleUp(fit: real, quotient: real)
    requires fit >= 0.0 && quotient >= 0.0
    ensures quotient >= 0.5 ==> fit * Minimum(1.0, quotient) >= fit / 2.0
  {
    if quotient >= 1.0 { assert fit * Minimum(1.0, quotient) == fit; }
    else if quotient >= 0.5 { assert fit * quotient >= fit * 0.5; }
  }

  // --- the choice --------------------------------------------------------------------------------

  ghost predicate Descending(s: seq<Evidence>) {
    forall i, j :: 0 <= i < j < |s| ==> s[i].fit >= s[j].fit
  }

  lemma {:induction false} InsertKeepsOrder(e: Evidence, s: seq<Evidence>)
    requires Descending(s)
    ensures multiset(InsertByFit(e, s)) == multiset([e]) + multiset(s)
    ensures Descending(InsertByFit(e, s))
  {
    if s == [] || s[0].fit <= e.fit {
      assert multiset([e] + s) == multiset([e]) + multiset(s);
      PrependDescends(e, s);
    } else {
      InsertKeepsOrder(e, s[1..]);
      var rest := InsertByFit(e, s[1..]);
      assert s == [s[0]] + s[1..];
      assert InsertByFit(e, s) == [s[0]] + rest;
      hide InsertByFit;
      forall i | 0 <= i < |rest| ensures s[0].fit >= rest[i].fit {
        assert rest[i] in multiset(rest);
        assert rest[i] == e || rest[i] in s[1..];
      }
      PrependDescends(s[0], rest);
    }
  }

  lemma PrependDescends(e: Evidence, s: seq<Evidence>)
    requires Descending(s) && forall i :: 0 <= i < |s| ==> e.fit >= s[i].fit
    ensures Descending([e] + s)
  {
  }

  /** The sort keeps every element and puts a best fit first. */
  lemma {:induction false} SortIsASort(s: seq<Evidence>)
    ensures multiset(SortByFit(s)) == multiset(s) && Descending(SortByFit(s))
  {
    if s != [] {
      SortIsASort(s[1..]);
      InsertKeepsOrder(s[0], SortByFit(s[1..]));
      assert s == [s[0]] + s[1..];
    }
  }

  lemma HeadIsBest(s: seq<Evidence>)
    ensures |SortByFit(s)| == |s| && forall e :: e in s <==> e in SortByFit(s)
    ensures s != [] ==> forall e :: e in s ==> e.fit <= SortByFit(s)[0].fit
  {
    SortIsASort(s);
    SameMembers(s, SortByFit(s));
  }

  ghost predicate Qualifies(e: Evidence, candidates: seq<Evidence>, minFit: real) {
    e in candidates && e.fit >= minFit
  }

  ghost predicate IsTop(top: Evidence, candidates: seq<Evidence>, minFit: real) {
    Qualifies(top, candidates, minFit) && forall e :: Qualifies(e, candidates, minFit) ==> e.fit <= top.fit
  }

  lemma CloseToItself(v: real)
    ensures Close(v, v)
  {
  }

  lemma CloseIsSymmetric(v: real, w: real)
    ensures Close(v, w) <==> Close(w, v)
  {
  }

  /** What each outcome of the choice means. */
  lemma ChoiceIsExact(candidates: seq<Evidence>, groupSize: nat, minFit: real)
    ensures var r := Choose(candidates, groupSize, minFit);
      && r.status != InsufficientGroup && r.groupSize == groupSize && (r.best.Some? <==> r.status == Candidate)
      && (r.status == NoRelationship <==> forall e :: !Qualifies(e, candidates, minFit))
      && (r.status == Candidate ==>
           && IsTop(r.best.value, candidates, minFit)
           && forall e :: Qualifies(e, candidates, minFit) ==> !Competes(r.best.value, e))
      && (r.status == Ambiguous ==>
           exists top, e :: IsTop(top, candidates, minFit) && Qualifies(e, candidates, minFit) && Competes(top, e))
      && (forall e :: e in candidates <==> e in r.rejected || r.best == Some(e))
  {
    var kept := FilterMap(candidates, FitsAtLeast(minFit));
    forall e ensures e in kept <==> Qualifies(e, candidates, minFit) {
      FilterMapMember(candidates, FitsAtLeast(minFit), e);
    }
    HeadIsBest(kept);
    HeadIsBest(candidates);
    var qualifying, all := SortByFit(kept), SortByFit(candidates);
    hide SortByFit, FilterMap, FitsAtLeast;
    if qualifying != [] {
      var top := qualifying[0];
      CloseToItself(top.value);
      assert qualifying == [top] + qualifying[1..];
      assert top in qualifying && IsTop(top, candidates, minFit);
      hide Close;
      forall e ensures e in FilterMap(all, AllBut(top)) <==> e in all && e != top {
        FilterMapMember(all, AllBut(top), e);
      }
    } else {
      forall e ensures !Qualifies(e, candidates, minFit) {
        assert e !in qualifying;
      }
    }
  }

  ghost function Comparable(target: string, failing: Row, rows: seq<Row>, columns: seq<ColumnMeta>): seq<Row> {
    Group(rows, failing, Dimensions(columns, rows, target))
  }

  /** An exact law pins the answer: the engine gives the law's value within its closeness, or declines as ambiguous. */
  lemma ExactLawPinsTheAnswer(target: string, failing: Row, rows: seq<Row>, columns: seq<ColumnMeta>,
                              minGroupSize: nat, minFit: real, sqrt: real -> real, shape: Shape, v: real)
    requires minGroupSize >= 1 && IsSquareRoot(sqrt) && minFit <= 1.0
    requires shape in Shapes(Measures(columns, rows, target))
    requires Test(shape, target, Comparable(target, failing, rows, columns), failing, minGroupSize, sqrt).Some?
    requires LawGives(shape, target, Comparable(target, failing, rows, columns), failing, v)
    ensures var r := Discover(target, failing, rows, columns, minGroupSize, minFit, sqrt);
      && r.status in {Candidate, Ambiguous}
      && (r.status == Candidate ==>
           && Close(r.best.value.value, v) && r.best.value.fit == 1.0
           && LawGives(r.best.value.shape, target, Comparable(target, failing, rows, columns), failing,
                       r.best.value.value))
  {
    var group, shapes := Comparable(target, failing, rows, columns), Shapes(Measures(columns, rows, target));
    var test := Tester(target, group, failing, minGroupSize, sqrt);
    var candidates, e := FilterMap(shapes, test), test(shape).value;
    assert |group| >= minGroupSize by {
      if IsSpread(shape) { FilterMapLength(group, Quotient(shape, target)); }
      else { FilterMapLength(group, TargetAndDerived(shape, target)); }
    }
    PerfectFitIffLaw(shape, target, group, failing, minGroupSize, sqrt, v);
    FilterMapMember(shapes, test, e);
    hide FilterMap, LawGives, Close;
    assert Qualifies(e, candidates, minFit);
    ChoiceIsExact(candidates, |group|, minFit);
    var r := Choose(candidates, |group|, minFit);
    hide Choose, Test;
    if r.status == Candidate {
      var top := r.best.value;
      FilterMapMember(shapes, test, top);
      var s :| s in shapes && test(s) == Some(top);
      TestedShape(s, target, group, failing, minGroupSize, sqrt);
      PerfectFitIffLaw(s, target, group, failing, minGroupSize, sqrt, v);
      CloseIsSymmetric(top.value, v);
    }
  }

  lemma TestedShape(shape: Shape, target: string, group: seq<Row>, failing: Row, minGroupSize: nat, sqrt: real -> real)
    requires minGroupSize >= 1 && Test(shape, target, group, failing, minGroupSize, sqrt).Some?
    ensures Test(shape, target, group, failing, minGroupSize, sqrt).value.shape == shape
  {
  }

  // --- the order of the rows ---------------------------------------------------------------------

  lemma {:induction false} TotalAppend(xs: seq<real>, ys: seq<real>)
    ensures Total(xs + ys) == Total(xs) + Total(ys)
  {
    if xs == [] {
      assert xs + ys == ys;
    } else {
      assert (xs + ys)[1..] == xs[1..] + ys;
      TotalAppend(xs[1..], ys);
    }
  }

  lemma {:induction false} TotalPermutation(xs: seq<real>, ys: seq<real>)
    requires multiset(xs) == multiset(ys)
    ensures Total(xs) == Total(ys)
  {
    if xs == [] {
      assert |multiset(ys)| == 0;
    } else {
      var before, after := RemoveFirst(xs, ys);
      TotalPermutation(xs[1..], before + after);
      TotalAppend(before, [xs[0]] + after);
      TotalAppend(before, after);
      assert ([xs[0]] + after)[1..] == after;
    }
  }

  lemma MeanPermutation(xs: seq<real>, ys: seq<real>)
    requires multiset(xs) == multiset(ys) && xs != []
    ensures |xs| == |ys| && Mean(xs) == Mean(ys)
  {
    SameMembers(xs, ys);
    TotalPermutation(xs, ys);
  }

  function Deviation(mean: real): real -> Option<real> { (x: real) => Some(Square(x - mean)) }

  lemma {:induction false} DeviationsAreAMap(xs: seq<real>, mean: real)
    ensures SquaredDeviations(xs, mean) == FilterMap(xs, Deviation(mean))
  {
    if xs != [] { DeviationsAreAMap(xs[1..], mean); }
  }

  function Error(): ((real, real)) -> Option<real> { (p: (real, real)) => Some(RelativeError(p.0, p.1)) }

  lemma {:induction false} ErrorsAreAMap(pairs: seq<(real, real)>)
    ensures Errors(pairs) == FilterMap(pairs, Error())
  {
    if pairs != [] { ErrorsAreAMap(pairs[1..]); }
  }

  lemma SpreadPermutation(xs: seq<real>, ys: seq<real>, sqrt: real -> real)
    requires multiset(xs) == multiset(ys) && xs != []
    ensures ys != [] && FitSpread(xs, sqrt) == FitSpread(ys, sqrt)
  {
    MeanPermutation(xs, ys);
    var mean := Mean(xs);
    DeviationsAreAMap(xs, mean);
    DeviationsAreAMap(ys, mean);
    FilterMapPermutation(xs, ys, Deviation(mean));
    MeanPermutation(SquaredDeviations(xs, mean), SquaredDeviations(ys, mean));
  }

  lemma DerivedPermutation(xs: seq<(real, real)>, ys: seq<(real, real)>)
    requires multiset(xs) == multiset(ys) && xs != []
    ensures ys != [] && FitDerived(xs) == FitDerived(ys)
  {
    SameMembers(xs, ys);
    ErrorsAreAMap(xs);
    ErrorsAreAMap(ys);
    FilterMapPermutation(xs, ys, Error());
    MeanPermutation(Errors(xs), Errors(ys));
  }

  lemma TestPermutation(shape: Shape, target: string, g: seq<Row>, h: seq<Row>, failing: Row, minGroupSize: nat,
                        sqrt: real -> real)
    requires minGroupSize >= 1 && multiset(g) == multiset(h)
    ensures Test(shape, target, g, failing, minGroupSize, sqrt) == Test(shape, target, h, failing, minGroupSize, sqrt)
  {
    if IsSpread(shape) {
      var f := Quotient(shape, target);
      FilterMapPermutation(g, h, f);
      SameMembers(FilterMap(g, f), FilterMap(h, f));
      if FilterMap(g, f) != [] { SpreadPermutation(FilterMap(g, f), FilterMap(h, f), sqrt); }
    } else {
      var f := TargetAndDerived(shape, target);
      FilterMapPermutation(g, h, f);
      SameMembers(FilterMap(g, f), FilterMap(h, f));
      if FilterMap(g, f) != [] { DerivedPermutation(FilterMap(g, f), FilterMap(h, f)); }
    }
  }

  lemma DistinctPermutation(name: string, rows: seq<Row>, shuffled: seq<Row>)
    requires multiset(rows) == multiset(shuffled)
    ensures DerivedDistinct(name, rows) == DerivedDistinct(name, shuffled)
  {
    var xs, ys := FilterMap(rows, PresentIn(name)), FilterMap(shuffled, PresentIn(name));
    FilterMapPermutation(rows, shuffled, PresentIn(name));
    SameMembers(xs, ys);
    hide FilterMap, PresentIn;
    assert (set v | v in xs) == (set v | v in ys);
  }

  lemma ClassifyPermutation(meta: ColumnMeta, rows: seq<Row>, shuffled: seq<Row>)
    requires multiset(rows) == multiset(shuffled)
    ensures Classify(meta, rows) == Classify(meta, shuffled)
  {
    hide DerivedDistinct, UpperCase;
    SameMembers(rows, shuffled);
    DistinctPermutation(meta.name, rows, shuffled);
  }

  lemma {:induction false} RolesPermutation(columns: seq<ColumnMeta>, rows: seq<Row>, shuffled: seq<Row>)
    requires multiset(rows) == multiset(shuffled)
    ensures Roles(columns, rows) == Roles(columns, shuffled)
  {
    if columns != [] {
      RolesPermutation(columns[..|columns| - 1], rows, shuffled);
      ClassifyPermutation(columns[|columns| - 1], rows, shuffled);
    }
  }

  /** In exact arithmetic the order of the fetched rows changes nothing at all. */
  lemma RowOrderIndependence(target: string, failing: Row, rows: seq<Row>, shuffled: seq<Row>, columns: seq<ColumnMeta>,
                             minGroupSize: nat, minFit: real, sqrt: real -> real)
    requires minGroupSize >= 1 && multiset(rows) == multiset(shuffled)
    ensures Discover(target, failing, rows, columns, minGroupSize, minFit, sqrt)
         == Discover(target, failing, shuffled, columns, minGroupSize, minFit, sqrt)
  {
    RolesPermutation(columns, rows, shuffled);
    var dimensions := Dimensions(columns, rows, target);
    FilterMapPermutation(rows, shuffled, Otherwise(failing));
    FilterMapPermutation(FilterMap(rows, Otherwise(failing)), FilterMap(shuffled, Otherwise(failing)),
                         Matching(failing, dimensions));
    var g, h := Group(rows, failing, dimensions), Group(shuffled, failing, dimensions);
    SameMembers(g, h);
    hide Test, Choose;
    var a, b := Tester(target, g, failing, minGroupSize, sqrt), Tester(target, h, failing, minGroupSize, sqrt);
    var shapes := Shapes(Measures(columns, rows, target));
    forall s | s in shapes ensures a(s) == b(s) {
      TestPermutation(s, target, g, h, failing, minGroupSize, sqrt);
    }
    FilterMapSame(shapes, a, b);
  }

  // --- the failing row's own target -----------------------------------------------------------------

  lemma {:induction false} RatiosUse(ms: seq<string>, shape: Shape)
    ensures shape in Ratios(ms) <==> shape.Ratio? && shape.column in ms
  {
    if ms != [] {
      RatiosUse(ms[1..], shape);
      assert ms == [ms[0]] + ms[1..];
    }
  }

  lemma {:induction false} ShapedUse(pairs: seq<(string, string)>, shape: (string, string) -> Shape, s: Shape)
    ensures s in Shaped(pairs, shape) <==> exists p :: p in pairs && s == shape(p.0, p.1)
  {
    if pairs != [] {
      ShapedUse(pairs[1..], shape, s);
      assert pairs == [pairs[0]] + pairs[1..];
    }
  }

  predicate Uses(shape: Shape, ms: seq<string>) {
    match shape
    case Constant => true
    case Ratio(m) => m in ms
    case Product(a, b) => a in ms && b in ms
    case Sum(a, b) => a in ms && b in ms
    case Difference(a, b) => a in ms && b in ms
  }

  lemma ShapesUseMeasures(ms: seq<string>, s: Shape)
    requires s in Shapes(ms)
    ensures Uses(s, ms)
  {
    RatiosUse(ms, s);
    ShapedUse(Combinations(ms), ProductOf(), s);
    ShapedUse(Combinations(ms), SumOf(), s);
    ShapedUse(Permutations(ms, 0), DifferenceOf(), s);
    forall p ensures p in Combinations(ms) ==> p.0 in ms && p.1 in ms {
      CombinationsAreOrderedPairs(ms, p);
    }
    forall p ensures p in Permutations(ms, 0) ==> p.0 in ms && p.1 in ms {
      PermutationsAreAllPairs(ms, 0, p);
    }
  }

  /** The failing row's own target value can only change which rows count as other rows. */
  lemma FailingTargetIsIgnored(target: string, failing: Row, cell: Cell, rows: seq<Row>, columns: seq<ColumnMeta>,
                               minGroupSize: nat, minFit: real, sqrt: real -> real)
    requires minGroupSize >= 1
    requires FilterMap(rows, Otherwise(failing)) == FilterMap(rows, Otherwise(failing[target := cell]))
    ensures Discover(target, failing, rows, columns, minGroupSize, minFit, sqrt)
         == Discover(target, failing[target := cell], rows, columns, minGroupSize, minFit, sqrt)
  {
    var changed := failing[target := cell];
    var dimensions, measures := Dimensions(columns, rows, target), Measures(columns, rows, target);
    TargetIsNotNamed(Roles(columns, rows), Dimension, target);
    TargetIsNotNamed(Roles(columns, rows), Measure, target);
    FilterMapSame(FilterMap(rows, Otherwise(failing)), Matching(failing, dimensions), Matching(changed, dimensions));
    var group := Group(rows, failing, dimensions);
    var a, b := Tester(target, group, failing, minGroupSize, sqrt), Tester(target, group, changed, minGroupSize, sqrt);
    assert target !in measures;
    hide Test, Choose, Shapes, FilterMap, Measures, Dimensions;
    forall s | s in Shapes(measures) ensures a(s) == b(s) {
      ShapesUseMeasures(measures, s);
      TestIgnoresTarget(s, measures, target, group, failing, cell, minGroupSize, sqrt);
    }
    FilterMapSame(Shapes(measures), a, b);
  }

  lemma TestIgnoresTarget(shape: Shape, measures: seq<string>, target: string, group: seq<Row>, failing: Row,
                          cell: Cell, minGroupSize: nat, sqrt: real -> real)
    requires minGroupSize >= 1 && Uses(shape, measures) && target !in measures
    ensures Test(shape, target, group, failing, minGroupSize, sqrt)
         == Test(shape, target, group, failing[target := cell], minGroupSize, sqrt)
  {
    hide FitShape, Usable, Confidence, Predict;
    forall k {
      PredictIgnoresTarget(shape, k, measures, failing, target, cell);
    }
  }

  lemma PredictIgnoresTarget(shape: Shape, k: real, measures: seq<string>, failing: Row, target: string, cell: Cell)
    requires Uses(shape, measures) && target !in measures
    ensures Predict(shape, k, failing) == Predict(shape, k, failing[target := cell])
  {
    forall m | m in measures ensures Num(failing, m) == Num(failing[target := cell], m) { }
    match shape {
      case Constant =>
      case Ratio(m) =>
        assert m in measures && Get(failing, m) == Get(failing[target := cell], m);
      case Product(a, b) => assert a in measures && b in measures;
      case Sum(a, b) => assert a in measures && b in measures;
      case Difference(a, b) => assert a in measures && b in measures;
    }
  }

  lemma TargetIsNotNamed(roles: seq<(string, Role)>, role: Role, target: string)
    ensures target !in FilterMap(roles, NamedIf(role, target))
  {
    FilterMapMember(roles, NamedIf(role, target), target);
  }
}
