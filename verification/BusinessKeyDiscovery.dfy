/** The business-key search: single columns, then pairs, then triples, and the narrowest width that has a key. */
module BusinessKeyDiscovery {
  import opened Collections
  import opened Text

  const MAX_COMPOSITE_WIDTH := 3
  const MIN_OBSERVATIONS := 2

  datatype Value = Number(number: int) | Label(text: string)

  /** A fetched row; a NULL cell is None. */
  type Row = map<string, Option<Value>>

  datatype ColumnMeta = ColumnMeta(name: string, dataType: string)

  datatype KeyStatus = VerifiedUnique | SampleCandidate | AmbiguousKeys | NoCandidate

  datatype Rejection = NullsAndDuplicates | Nulls | Duplicates | NoRows

  datatype Evidence = Evidence(columns: seq<string>, rejection: Option<Rejection>, totalRows: nat, nullKeyRows: nat,
                               distinctKeys: nat, duplicateGroups: nat, level: Option<KeyStatus>)

  datatype Result = Result(status: KeyStatus, recommended: Option<Evidence>, candidates: seq<Evidence>,
                           evaluated: seq<Evidence>, rejected: seq<ColumnMeta>, widths: seq<nat>)

  function Get(row: Row, c: string): Option<Value> {
    if c in row then row[c] else None
  }

  function Tuple(row: Row, columns: seq<string>): (t: seq<Option<Value>>)
    ensures |t| == |columns| && forall i :: 0 <= i < |t| ==> t[i] == Get(row, columns[i])
  {
    seq(|columns|, i requires 0 <= i < |columns| => Get(row, columns[i]))
  }

  function ToSet(columns: seq<string>): set<string> {
    set c | c in columns
  }

  /** What a business key is: no null in any row, and no two rows that agree on every column. */
  ghost predicate IsKey(columns: set<string>, rows: seq<Row>) {
    && (forall r, c :: r in rows && c in columns ==> Get(r, c).Some?)
    && forall i, j :: 0 <= i < j < |rows| ==> Differ(rows[i], rows[j], columns)
  }

  ghost predicate Differ(r: Row, s: Row, columns: set<string>) {
    exists c :: c in columns && Get(r, c) != Get(s, c)
  }

  // --- one column set ----------------------------------------------------------------

  /** The key tuple of a row without nulls. */
  function KeyOf(columns: seq<string>): Row -> Option<seq<Option<Value>>> {
    (row: Row) => if None in Tuple(row, columns) then None else Some(Tuple(row, columns))
  }

  function Keys(columns: seq<string>, rows: seq<Row>): seq<seq<Option<Value>>> {
    FilterMap(rows, KeyOf(columns))
  }

  function Judge(columns: seq<string>, total: nat, nulls: nat, distinct: nat, groups: nat, fullScan: bool): Evidence {
    if nulls == 0 && groups == 0 && distinct == total && total > 0 then
      Evidence(columns, None, total, nulls, distinct, groups,
               Some(if fullScan then VerifiedUnique else SampleCandidate))
    else
      var why := if nulls > 0 && groups > 0 then NullsAndDuplicates else if nulls > 0 then Nulls
                 else if groups > 0 then Duplicates else NoRows;
      Evidence(columns, Some(why), total, nulls, distinct, groups, None)
  }

  function Repeated(keys: seq<seq<Option<Value>>>): set<seq<Option<Value>>> {
    set k | k in keys && Count(keys, k) > 1
  }

  /** `_evaluate_combo` */
  function Evaluate(columns: seq<string>, rows: seq<Row>, fullScan: bool): (e: Evidence)
    ensures e.columns == columns
  {
    var keys := Keys(columns, rows);
    FilterMapLength(rows, KeyOf(columns));
    Judge(columns, |rows|, |rows| - |keys|, |set k | k in keys|, |Repeated(keys)|, fullScan)
  }

  /** The row loop: nulls are counted, other tuples are tallied in the dictionary. */
  method EvaluateCombo(columns: seq<string>, rows: seq<Row>, fullScan: bool) returns (e: Evidence)
    ensures e == Evaluate(columns, rows, fullScan)
  {
    var nullKeyRows := 0;
    var seen: map<seq<Option<Value>>, nat> := map[];
    assert Keys(columns, rows[..0]) == [] && IsTally(seen, []);
    hide IsTally, Count;
    for i := 0 to |rows|
      invariant nullKeyRows + |Keys(columns, rows[..i])| == i
      invariant IsTally(seen, Keys(columns, rows[..i]))
    {
      assert rows[..i + 1] == rows[..i] + [rows[i]];
      FilterMapSnoc(rows[..i], rows[i], KeyOf(columns));
      var values := Tuple(rows[i], columns);
      if None in values {
        assert Keys(columns, rows[..i + 1]) == Keys(columns, rows[..i]);
        nullKeyRows := nullKeyRows + 1;
      } else {
        TallyOneMore(seen, Keys(columns, rows[..i]), values);
        assert Keys(columns, rows[..i + 1]) == Keys(columns, rows[..i]) + [values];
        seen := seen[values := (if values in seen then seen[values] else 0) + 1];
      }
    }
    assert rows[..|rows|] == rows;
    TallyCounts(seen, Keys(columns, rows));
    var repeated := set k | k in seen && seen[k] > 1;
    e := Judge(columns, |rows|, nullKeyRows, |seen.Keys|, |repeated|, fullScan);
  }

  lemma TallyCounts(seen: map<seq<Option<Value>>, nat>, keys: seq<seq<Option<Value>>>)
    requires IsTally(seen, keys)
    ensures seen.Keys == set k | k in keys
    ensures (set k | k in seen && seen[k] > 1) == Repeated(keys)
  {
  }

  ghost predicate IsTally(seen: map<seq<Option<Value>>, nat>, keys: seq<seq<Option<Value>>>) {
    && (forall k :: k in seen <==> k in keys)
    && forall k :: k in seen ==> seen[k] == Count(keys, k)
  }

  lemma TallyOneMore(seen: map<seq<Option<Value>>, nat>, keys: seq<seq<Option<Value>>>, values: seq<Option<Value>>)
    requires IsTally(seen, keys)
    ensures IsTally(seen[values := (if values in seen then seen[values] else 0) + 1], keys + [values])
  {
    forall k ensures Count(keys + [values], k) == Count(keys, k) + if k == values then 1 else 0 {
      CountAppend(keys, [values], k);
      assert [values][1..] == [];
    }
  }

  /** No repetition means as many distinct elements as positions. */
  lemma {:induction false} DistinctCardinality<T>(xs: seq<T>)
    ensures |set x | x in xs| <= |xs|
    ensures |set x | x in xs| == |xs| <==> forall i, j :: 0 <= i < j < |xs| ==> xs[i] != xs[j]
  {
    if xs == [] {
      assert (set x | x in xs) == {};
    } else {
      var rest := xs[1..];
      DistinctCardinality(rest);
      assert (set x | x in xs) == (set x | x in rest) + {xs[0]};
      if xs[0] in rest {
        assert (set x | x in xs) == (set x | x in rest);
        var k :| 0 <= k < |rest| && rest[k] == xs[0];
        assert xs[0] == xs[k + 1];
      } else {
        assert forall i, j :: 0 <= i < j < |xs| && xs[i] == xs[j] ==> i > 0 && rest[i - 1] == rest[j - 1];
        assert forall i, j :: 0 <= i < j < |rest| ==> rest[i] == xs[i + 1] && rest[j] == xs[j + 1];
      }
    }
  }

  lemma {:induction false} CountsOfDistinct<T>(xs: seq<T>, x: T)
    requires forall i, j :: 0 <= i < j < |xs| ==> xs[i] != xs[j]
    ensures Count(xs, x) <= 1
  {
    if xs != [] {
      CountsOfDistinct(xs[1..], x);
      if xs[0] == x { assert x !in xs[1..]; }
    }
  }

  /** The evaluation accepts a column set exactly when it is a key of a non-empty row set. */
  lemma AcceptedIffKey(columns: seq<string>, rows: seq<Row>, fullScan: bool)
    ensures Evaluate(columns, rows, fullScan).rejection.None? <==> |rows| > 0 && IsKey(ToSet(columns), rows)
    ensures Evaluate(columns, rows, fullScan).level
         == if Evaluate(columns, rows, fullScan).rejection.None?
            then Some(if fullScan then VerifiedUnique else SampleCandidate) else None
  {
    var keys := Keys(columns, rows);
    FilterMapLength(rows, KeyOf(columns));
    DistinctCardinality(keys);
    if |keys| == |rows| {
      AllKeys(columns, rows);
      if forall i, j :: 0 <= i < j < |keys| ==> keys[i] != keys[j] {
        forall k | k in keys ensures Count(keys, k) <= 1 { CountsOfDistinct(keys, k); }
        assert Repeated(keys) == {};
      }
      KeysDifferIffRowsDiffer(columns, rows);
    } else {
      var r :| r in rows && None in Tuple(r, columns);
      var i :| 0 <= i < |columns| && Tuple(r, columns)[i] == None;
      assert columns[i] in ToSet(columns);
    }
  }

  lemma {:induction false} AllKeys(columns: seq<string>, rows: seq<Row>)
    requires |Keys(columns, rows)| == |rows|
    ensures forall i :: 0 <= i < |rows| ==> Keys(columns, rows)[i] == Tuple(rows[i], columns)
    ensures forall r, c :: r in rows && c in ToSet(columns) ==> Get(r, c).Some?
  {
    if rows != [] {
      FilterMapLength(rows[1..], KeyOf(columns));
      AllKeys(columns, rows[1..]);
      forall c | c in ToSet(columns) ensures Get(rows[0], c).Some? {
        var i :| 0 <= i < |columns| && columns[i] == c;
        assert Tuple(rows[0], columns)[i] != None;
      }
      assert rows == [rows[0]] + rows[1..];
    }
  }

  lemma KeysDifferIffRowsDiffer(columns: seq<string>, rows: seq<Row>)
    requires |Keys(columns, rows)| == |rows|
    requires forall i :: 0 <= i < |rows| ==> Keys(columns, rows)[i] == Tuple(rows[i], columns)
    ensures (forall i, j :: 0 <= i < j < |rows| ==> Keys(columns, rows)[i] != Keys(columns, rows)[j])
       <==> forall i, j :: 0 <= i < j < |rows| ==> Differ(rows[i], rows[j], ToSet(columns))
  {
    forall i, j | 0 <= i < j < |rows|
      ensures Tuple(rows[i], columns) != Tuple(rows[j], columns) <==> Differ(rows[i], rows[j], ToSet(columns))
    {
      TuplesDiffer(rows[i], rows[j], columns);
    }
  }

  lemma TuplesDiffer(r: Row, s: Row, columns: seq<string>)
    ensures Tuple(r, columns) != Tuple(s, columns) <==> Differ(r, s, ToSet(columns))
  {
    if Differ(r, s, ToSet(columns)) {
      var c :| c in ToSet(columns) && Get(r, c) != Get(s, c);
      var i :| 0 <= i < |columns| && columns[i] == c;
      assert Tuple(r, columns)[i] != Tuple(s, columns)[i];
    }
    if Tuple(r, columns) != Tuple(s, columns) {
      var i :| 0 <= i < |columns| && Tuple(r, columns)[i] != Tuple(s, columns)[i];
      assert columns[i] in ToSet(columns);
    }
  }

  // --- itertools.combinations ----------------------------------------------------------

  function Prepend(x: string, combos: seq<seq<string>>): seq<seq<string>> {
    if combos == [] then [] else [[x] + combos[0]] + Prepend(x, combos[1..])
  }

  lemma {:induction false} PrependMember(x: string, combos: seq<seq<string>>, c: seq<string>)
    requires c in combos
    ensures [x] + c in Prepend(x, combos)
  {
    if c != combos[0] { PrependMember(x, combos[1..], c); }
  }

  lemma {:induction false} PrependedFrom(x: string, combos: seq<seq<string>>, d: seq<string>)
    requires d in Prepend(x, combos)
    ensures d != [] && d == [x] + d[1..] && d[1..] in combos
  {
    if d == [x] + combos[0] {
      assert d[1..] == combos[0];
    } else {
      PrependedFrom(x, combos[1..], d);
    }
  }

  /** `itertools.combinations(names, width)` */
  function Combinations(names: seq<string>, width: nat): (combos: seq<seq<string>>) {
    if width == 0 then [[]]
    else if names == [] then []
    else Prepend(names[0], Combinations(names[1..], width - 1)) + Combinations(names[1..], width)
  }

  lemma ToSetCons(x: string, rest: seq<string>)
    ensures ToSet([x] + rest) == {x} + ToSet(rest)
  {
  }

  lemma {:induction false} CombinationsAreSubsets(names: seq<string>, width: nat, combo: seq<string>)
    requires combo in Combinations(names, width)
    ensures |combo| == width && ToSet(combo) <= ToSet(names)
  {
    if width > 0 {
      hide Prepend, ToSet;
      if combo in Combinations(names[1..], width) {
        CombinationsAreSubsets(names[1..], width, combo);
      } else {
        PrependedFrom(names[0], Combinations(names[1..], width - 1), combo);
        CombinationsAreSubsets(names[1..], width - 1, combo[1..]);
        ToSetCons(names[0], combo[1..]);
      }
      assert names == [names[0]] + names[1..];
      ToSetCons(names[0], names[1..]);
    }
  }

  /** Every set of listed columns is enumerated at its own width. */
  lemma {:induction false} CombinationsCoverSubsets(names: seq<string>, columns: set<string>)
    returns (combo: seq<string>)
    requires columns <= ToSet(names)
    ensures combo in Combinations(names, |columns|) && ToSet(combo) == columns
  {
    if columns == {} {
      combo := [];
    } else {
      hide Prepend, ToSet;
      EmptyToSet();
      assert names != [];
      var x, rest := names[0], names[1..];
      assert names == [x] + rest;
      ToSetCons(x, rest);
      if x in columns {
        var c := CombinationsCoverSubsets(rest, columns - {x});
        combo := [x] + c;
        ToSetCons(x, c);
        PrependMember(x, Combinations(rest, |columns| - 1), c);
      } else {
        combo := CombinationsCoverSubsets(rest, columns);
      }
    }
  }

  lemma EmptyToSet()
    ensures ToSet([]) == {}
  {
  }

  // --- the search ------------------------------------------------------------------------

  predicate IsEligible(c: ColumnMeta) {
    UpperCase(c.dataType) in ["STRING", "INTEGER", "DATE", "DATETIME"]
  }

  function EligibleName(c: ColumnMeta): Option<string> {
    if IsEligible(c) then Some(c.name) else None
  }

  function Ineligible(c: ColumnMeta): Option<ColumnMeta> {
    if IsEligible(c) then None else Some(c)
  }

  function EvaluateAll(combos: seq<seq<string>>, rows: seq<Row>, fullScan: bool): (r: seq<Evidence>)
    ensures |r| == |combos| && forall i :: 0 <= i < |r| ==> r[i] == Evaluate(combos[i], rows, fullScan)
  {
    seq(|combos|, i requires 0 <= i < |combos| => Evaluate(combos[i], rows, fullScan))
  }

  function Accepted(e: Evidence): Option<Evidence> {
    if e.rejection.None? then Some(e) else None
  }

  /** Python's `<` on tuples of strings. */
  predicate ColumnsLess(a: seq<string>, b: seq<string>) {
    b != [] && (a == [] || Less(a[0], b[0]) || (a[0] == b[0] && ColumnsLess(a[1..], b[1..])))
  }

  lemma {:induction false} ColumnsLessIsAsymmetric(a: seq<string>, b: seq<string>)
    ensures !(ColumnsLess(a, b) && ColumnsLess(b, a))
  {
    if a != [] && b != [] {
      LessIsTotal(a[0], b[0]);
      ColumnsLessIsAsymmetric(a[1..], b[1..]);
    }
  }

  ghost predicate InDisplayOrder(s: seq<Evidence>) {
    forall i :: 0 < i < |s| ==> !ColumnsLess(s[i].columns, s[i - 1].columns)
  }

  function Insert(e: Evidence, s: seq<Evidence>): (r: seq<Evidence>)
    requires InDisplayOrder(s)
    ensures multiset(r) == multiset(s) + multiset{e} && InDisplayOrder(r)
    ensures r[0] == e || (s != [] && r[0] == s[0])
  {
    if s == [] || !ColumnsLess(s[0].columns, e.columns) then [e] + s
    else
      ColumnsLessIsAsymmetric(s[0].columns, e.columns);
      assert s == [s[0]] + s[1..];
      [s[0]] + Insert(e, s[1..])
  }

  /** `sorted(passing, key=_display_sort_key)`: all candidates have one width, so the columns decide. */
  function DisplaySort(s: seq<Evidence>): (r: seq<Evidence>)
    ensures multiset(r) == multiset(s) && InDisplayOrder(r)
  {
    if s == [] then []
    else
      assert s == [s[0]] + s[1..];
      Insert(s[0], DisplaySort(s[1..]))
  }

  /** The search from one width on, given what was evaluated before. */
  function Search(names: seq<string>, rows: seq<Row>, fullScan: bool, rejected: seq<ColumnMeta>,
                  width: nat, evaluated: seq<Evidence>, widths: seq<nat>): (r: Result)
    decreases MAX_COMPOSITE_WIDTH + 1 - width
  {
    if width > MAX_COMPOSITE_WIDTH || width > |names| then Result(NoCandidate, None, [], evaluated, rejected, widths)
    else
      var found := EvaluateAll(Combinations(names, width), rows, fullScan);
      var passing := DisplaySort(FilterMap(found, Accepted));
      if passing == [] then Search(names, rows, fullScan, rejected, width + 1, evaluated + found, widths + [width])
      else if |passing| == 1 && passing[0].level.Some? then
        Result(passing[0].level.value, Some(passing[0]), passing, evaluated + found, rejected, widths + [width])
      else Result(AmbiguousKeys, None, passing, evaluated + found, rejected, widths + [width])
  }

  function EligibleNames(columns: seq<ColumnMeta>): seq<string> {
    FilterMap(columns, EligibleName)
  }

  /** `discover_business_key_candidates` */
  function Discover(columns: seq<ColumnMeta>, rows: seq<Row>, fullScan: bool): (r: Result) {
    var names, rejected := EligibleNames(columns), FilterMap(columns, Ineligible);
    if |rows| < MIN_OBSERVATIONS || names == [] then Result(NoCandidate, None, [], [], rejected, [])
    else Search(names, rows, fullScan, rejected, 1, [], [])
  }

  /** All column sets of one width. */
  method EvaluateCombos(combos: seq<seq<string>>, rows: seq<Row>, fullScan: bool) returns (found: seq<Evidence>)
    ensures found == EvaluateAll(combos, rows, fullScan)
  {
    hide Evaluate;
    found := [];
    for i := 0 to |combos|
      invariant |found| == i
      invariant forall k :: 0 <= k < i ==> found[k] == Evaluate(combos[k], rows, fullScan)
    {
      var e := EvaluateCombo(combos[i], rows, fullScan);
      found := found + [e];
    }
  }

  /** The width loop: evidence and widths accumulate until a width has a passing set. */
  method DiscoverBusinessKeyCandidates(columns: seq<ColumnMeta>, rows: seq<Row>, fullScan: bool) returns (r: Result)
    ensures r == Discover(columns, rows, fullScan)
  {
    hide EvaluateAll, Combinations, DisplaySort, FilterMap, EligibleNames, Accepted;
    var names, rejected := EligibleNames(columns), FilterMap(columns, Ineligible);
    if |rows| < MIN_OBSERVATIONS || names == [] { return Result(NoCandidate, None, [], [], rejected, []); }
    var widths: seq<nat>, evaluated: seq<Evidence> := [], [];
    var maxWidth := if |names| < MAX_COMPOSITE_WIDTH then |names| else MAX_COMPOSITE_WIDTH;
    var width := 1;
    while width <= maxWidth
      invariant 1 <= width <= maxWidth + 1
      invariant Discover(columns, rows, fullScan) == Search(names, rows, fullScan, rejected, width, evaluated, widths)
    {
      widths := widths + [width];
      var combos := Combinations(names, width);
      var found := EvaluateCombos(combos, rows, fullScan);
      evaluated := evaluated + found;
      var passing := DisplaySort(FilterMap(found, Accepted));
      if passing != [] {
        if |passing| == 1 && passing[0].level.Some? {
          return Result(passing[0].level.value, Some(passing[0]), passing, evaluated, rejected, widths);
        }
        return Result(AmbiguousKeys, None, passing, evaluated, rejected, widths);
      }
      width := width + 1;
    }
    r := Result(NoCandidate, None, [], evaluated, rejected, widths);
  }

  // --- what the search guarantees ----------------------------------------------------------

  /** No set of at most `width` eligible columns is a key. */
  ghost predicate NoKeyUpTo(names: seq<string>, rows: seq<Row>, width: int) {
    forall s: set<string> :: s <= ToSet(names) && |s| <= width ==> !IsKey(s, rows)
  }

  /** These candidates are, up to order, exactly the keys of this width. */
  ghost predicate ListsKeys(candidates: seq<Evidence>, names: seq<string>, rows: seq<Row>, width: nat) {
    && (forall e :: e in candidates ==>
          |e.columns| == width && ToSet(e.columns) <= ToSet(names) && IsKey(ToSet(e.columns), rows))
    && forall s: set<string> :: s <= ToSet(names) && |s| == width && IsKey(s, rows) ==>
          exists e :: e in candidates && ToSet(e.columns) == s
  }

  ghost predicate IsExact(r: Result, names: seq<string>, rows: seq<Row>, fullScan: bool) {
    match r.status
    case NoCandidate => r.recommended == None && r.candidates == [] && NoKeyUpTo(names, rows, MAX_COMPOSITE_WIDTH)
    case AmbiguousKeys =>
      r.recommended == None && |r.candidates| >= 2 && MinimalWidth(r.candidates, names, rows)
    case _ =>
      && r.recommended.Some? && r.candidates == [r.recommended.value]
      && r.recommended.value.level == Some(r.status)
      && (r.status == VerifiedUnique <==> fullScan)
      && MinimalWidth(r.candidates, names, rows)
  }

  /** The candidates are all the keys of their width, and nothing narrower is a key. */
  ghost predicate MinimalWidth(candidates: seq<Evidence>, names: seq<string>, rows: seq<Row>) {
    && candidates != [] && 1 <= |candidates[0].columns| <= MAX_COMPOSITE_WIDTH
    && NoKeyUpTo(names, rows, |candidates[0].columns| - 1)
    && ListsKeys(candidates, names, rows, |candidates[0].columns|)
  }

  lemma PassingListsKeys(names: seq<string>, rows: seq<Row>, fullScan: bool, width: nat)
    requires |rows| > 0
    ensures ListsKeys(DisplaySort(FilterMap(EvaluateAll(Combinations(names, width), rows, fullScan), Accepted)),
                      names, rows, width)
    ensures forall e ::
      e in DisplaySort(FilterMap(EvaluateAll(Combinations(names, width), rows, fullScan), Accepted)) ==>
      e.level == Some(if fullScan then VerifiedUnique else SampleCandidate)
  {
    hide IsKey, Combinations, Evaluate, InDisplayOrder, ToSet, FilterMap;
    var combos := Combinations(names, width);
    var found := EvaluateAll(combos, rows, fullScan);
    var passing := FilterMap(found, Accepted);
    SameMembers(DisplaySort(passing), passing);
    forall e | e in passing
      ensures |e.columns| == width && ToSet(e.columns) <= ToSet(names) && IsKey(ToSet(e.columns), rows)
      ensures e.level == Some(if fullScan then VerifiedUnique else SampleCandidate)
    {
      FilterMapMember(found, Accepted, e);
      var i :| 0 <= i < |found| && found[i] == e;
      AcceptedIffKey(combos[i], rows, fullScan);
      CombinationsAreSubsets(names, width, combos[i]);
    }
    forall s: set<string> | s <= ToSet(names) && |s| == width && IsKey(s, rows)
      ensures exists e :: e in passing && ToSet(e.columns) == s
    {
      var combo := CombinationsCoverSubsets(names, s);
      var i :| 0 <= i < |combos| && combos[i] == combo;
      AcceptedIffKey(combo, rows, fullScan);
      FilterMapMember(found, Accepted, found[i]);
      assert found[i] in found && Accepted(found[i]) == Some(found[i]);
    }
  }

  lemma {:induction false} SearchIsExact(names: seq<string>, rows: seq<Row>, fullScan: bool, rejected: seq<ColumnMeta>,
                                         width: nat, evaluated: seq<Evidence>, widths: seq<nat>)
    requires |rows| > 0 && width >= 1 && NoKeyUpTo(names, rows, width - 1)
    ensures IsExact(Search(names, rows, fullScan, rejected, width, evaluated, widths), names, rows, fullScan)
    decreases MAX_COMPOSITE_WIDTH + 1 - width
  {
    hide IsKey, Combinations, EvaluateAll, DisplaySort, FilterMap, ToSet;
    if width > MAX_COMPOSITE_WIDTH || width > |names| {
      forall s: set<string> | s <= ToSet(names) ensures |s| <= |names| { SubsetsAreSmall(names, s); }
    } else {
      PassingListsKeys(names, rows, fullScan, width);
      var found := EvaluateAll(Combinations(names, width), rows, fullScan);
      var passing := DisplaySort(FilterMap(found, Accepted));
      if passing == [] {
        SearchIsExact(names, rows, fullScan, rejected, width + 1, evaluated + found, widths + [width]);
      } else {
        hide NoKeyUpTo, ListsKeys, IsExact;
        assert passing[0] in passing;
        PassingIsExact(passing, names, rows, fullScan, width, evaluated + found, rejected, widths + [width]);
      }
    }
  }

  lemma PassingIsExact(passing: seq<Evidence>, names: seq<string>, rows: seq<Row>, fullScan: bool, width: nat,
                       evaluated: seq<Evidence>, rejected: seq<ColumnMeta>, widths: seq<nat>)
    requires passing != [] && 1 <= width <= MAX_COMPOSITE_WIDTH
    requires ListsKeys(passing, names, rows, width) && NoKeyUpTo(names, rows, width - 1)
    requires forall e :: e in passing ==> e.level == Some(if fullScan then VerifiedUnique else SampleCandidate)
    ensures IsExact(if |passing| == 1 && passing[0].level.Some?
                    then Result(passing[0].level.value, Some(passing[0]), passing, evaluated, rejected, widths)
                    else Result(AmbiguousKeys, None, passing, evaluated, rejected, widths), names, rows, fullScan)
  {
    assert passing[0] in passing && |passing[0].columns| == width;
    hide NoKeyUpTo, ListsKeys, IsKey, ToSet;
  }

  lemma SubsetsAreSmall(names: seq<string>, s: set<string>)
    requires s <= ToSet(names)
    ensures |s| <= |names|
  {
    DistinctCardinality(names);
    SubsetCardinality(s, ToSet(names));
  }

  lemma {:induction false} SubsetCardinality(s: set<string>, t: set<string>)
    requires s <= t
    ensures |s| <= |t|
  {
    if s != {} {
      var x :| x in s;
      SubsetCardinality(s - {x}, t - {x});
    }
  }

  /** Sound, complete and minimal: the search returns exactly the keys of the narrowest width that has one. */
  lemma DiscoveryIsExact(columns: seq<ColumnMeta>, rows: seq<Row>, fullScan: bool)
    requires |rows| >= MIN_OBSERVATIONS && EligibleNames(columns) != []
    ensures IsExact(Discover(columns, rows, fullScan), EligibleNames(columns), rows, fullScan)
  {
    var names := EligibleNames(columns);
    hide Search, EligibleNames;
    forall s: set<string> | s <= ToSet(names) && |s| <= 0 ensures !IsKey(s, rows) {
      assert s == {};
      assert !Differ(rows[0], rows[1], {});
    }
    SearchIsExact(names, rows, fullScan, FilterMap(columns, Ineligible), 1, [], []);
  }

  /** A recommended key is the only key of its width, and every narrower eligible set fails. */
  lemma RecommendedIsTheOnlyMinimalKey(columns: seq<ColumnMeta>, rows: seq<Row>, fullScan: bool, s: set<string>)
    requires Discover(columns, rows, fullScan).recommended.Some?
    requires s <= ToSet(EligibleNames(columns)) && |s| <= |Discover(columns, rows, fullScan).recommended.value.columns|
    ensures IsKey(s, rows) <==> s == ToSet(Discover(columns, rows, fullScan).recommended.value.columns)
  {
    hide Search, EligibleNames, IsKey;
    DiscoveryIsExact(columns, rows, fullScan);
    var r := Discover(columns, rows, fullScan);
    var e := r.recommended.value;
    assert e in r.candidates;
  }

  /**
    Too few rows or no eligible column yield no candidate; otherwise VERIFIED_UNIQUE is reached only by a full scan.
  */
  lemma OnlyFullScansVerify(columns: seq<ColumnMeta>, rows: seq<Row>, fullScan: bool)
    ensures |rows| < MIN_OBSERVATIONS || EligibleNames(columns) == [] ==>
      Discover(columns, rows, fullScan).status == NoCandidate
    ensures Discover(columns, rows, fullScan).status == VerifiedUnique ==> fullScan
    ensures Discover(columns, rows, fullScan).status == SampleCandidate ==> !fullScan
  {
    hide Search, EligibleNames, IsKey;
    if |rows| >= MIN_OBSERVATIONS && EligibleNames(columns) != [] { DiscoveryIsExact(columns, rows, fullScan); }
  }
}
