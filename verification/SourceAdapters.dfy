/** Reading a source table: rows by key under SQL's three-valued logic, and the whole table in batches. */
module SourceAdapters {
  import opened Collections
  import opened Progression

  /** A row of the table; NULL is None. */
  type Row = map<string, Option<string>>

  /** A key dictionary, in its insertion order. */
  type Key = seq<(string, Option<string>)>

  datatype Truth = True | False | Unknown

  /** One condition of a group; Equals takes the next `?` parameter. */
  datatype Condition = Equals(column: string) | IsNull(column: string)

  datatype Error = NoKeyColumns | MixedKeyColumns

  datatype Outcome<T> = Done(value: T) | Refused(error: Error)

  function Get(row: Row, c: string): Option<string> { if c in row then row[c] else None }

  // --- three-valued logic ----------------------------------------------------------------

  function And(a: Truth, b: Truth): Truth {
    if a == False || b == False then False else if a == True && b == True then True else Unknown
  }

  function Or(a: Truth, b: Truth): Truth {
    if a == True || b == True then True else if a == False && b == False then False else Unknown
  }

  /** `=` is unknown as soon as one side is NULL. */
  function Eq(a: Option<string>, b: Option<string>): Truth {
    if a.None? || b.None? then Unknown else if a == b then True else False
  }

  function Arity(group: seq<Condition>): (n: nat)
    ensures n <= |group|
  {
    if group == [] then 0 else Arity(group[1..]) + if group[0].Equals? then 1 else 0
  }

  function TotalArity(groups: seq<seq<Condition>>): nat {
    if groups == [] then 0 else Arity(groups[0]) + TotalArity(groups[1..])
  }

  /** A conjunction, whose placeholders consume the parameters from left to right. */
  function EvalGroup(group: seq<Condition>, params: seq<string>, row: Row): Truth
    requires |params| == Arity(group)
  {
    if group == [] then True
    else
      match group[0]
      case IsNull(c) => And(if Get(row, c).None? then True else False, EvalGroup(group[1..], params, row))
      case Equals(c) => And(Eq(Get(row, c), Some(params[0])), EvalGroup(group[1..], params[1..], row))
  }

  /** The disjunction of the groups, on one flat parameter list. */
  function EvalGroups(groups: seq<seq<Condition>>, params: seq<string>, row: Row): Truth
    requires |params| == TotalArity(groups)
  {
    if groups == [] then False
    else
      var n := Arity(groups[0]);
      Or(EvalGroup(groups[0], params[..n], row), EvalGroups(groups[1..], params[n..], row))
  }

  // --- compiling a lookup -------------------------------------------------------------------

  function ColumnsOf(key: Key): seq<string> {
    if key == [] then [] else [key[0].0] + ColumnsOf(key[1..])
  }

  /** `key_dict[col]` */
  function Lookup(key: Key, c: string): Option<string>
    requires c in ColumnsOf(key)
  {
    if key[0].0 == c then key[0].1 else Lookup(key[1..], c)
  }

  function ConditionsFor(key: Key, columns: seq<string>): seq<Condition>
    requires forall c :: c in columns ==> c in ColumnsOf(key)
  {
    if columns == [] then []
    else
      var c := columns[0];
      assert c in columns;
      [if Lookup(key, c).None? then IsNull(c) else Equals(c)] + ConditionsFor(key, columns[1..])
  }

  function ParamsFor(key: Key, columns: seq<string>): (params: seq<string>)
    requires forall c :: c in columns ==> c in ColumnsOf(key)
    ensures |params| == Arity(ConditionsFor(key, columns))
  {
    if columns == [] then []
    else
      var c := columns[0];
      assert c in columns;
      (if Lookup(key, c).None? then [] else [Lookup(key, c).value]) + ParamsFor(key, columns[1..])
  }

  ghost predicate SameColumns(keys: seq<Key>, columns: seq<string>) {
    forall k :: k in keys ==> ColumnsOf(k) == columns
  }

  function Groups(keys: seq<Key>, columns: seq<string>): seq<seq<Condition>>
    requires SameColumns(keys, columns)
  {
    if keys == [] then []
    else
      assert keys[0] in keys;
      [ConditionsFor(keys[0], columns)] + Groups(keys[1..], columns)
  }

  function Params(keys: seq<Key>, columns: seq<string>): (params: seq<string>)
    requires SameColumns(keys, columns)
    ensures |params| == TotalArity(Groups(keys, columns))
  {
    if keys == [] then []
    else
      assert keys[0] in keys;
      ParamsFor(keys[0], columns) + Params(keys[1..], columns)
  }

  lemma {:induction false} OneMoreCondition(key: Key, columns: seq<string>, c: string)
    requires c in ColumnsOf(key) && forall d :: d in columns ==> d in ColumnsOf(key)
    ensures ConditionsFor(key, columns + [c])
         == ConditionsFor(key, columns) + [if Lookup(key, c).None? then IsNull(c) else Equals(c)]
  {
    hide Lookup, ColumnsOf;
    if columns == [] {
      assert [] + [c] == [c] && [c][1..] == [];
    } else {
      assert columns[0] in columns && (columns + [c])[1..] == columns[1..] + [c];
      OneMoreCondition(key, columns[1..], c);
    }
  }

  lemma {:induction false} OneMoreValue(key: Key, columns: seq<string>, c: string)
    requires c in ColumnsOf(key) && forall d :: d in columns ==> d in ColumnsOf(key)
    ensures ParamsFor(key, columns + [c])
         == ParamsFor(key, columns) + if Lookup(key, c).None? then [] else [Lookup(key, c).value]
  {
    hide Lookup, ColumnsOf, ConditionsFor, Arity;
    if columns == [] {
      assert [] + [c] == [c] && [c][1..] == [];
    } else {
      assert columns[0] in columns && (columns + [c])[1..] == columns[1..] + [c];
      OneMoreValue(key, columns[1..], c);
    }
  }

  lemma {:induction false} OneMoreGroup(keys: seq<Key>, columns: seq<string>, k: Key)
    requires SameColumns(keys, columns) && ColumnsOf(k) == columns
    ensures Groups(keys + [k], columns) == Groups(keys, columns) + [ConditionsFor(k, columns)]
  {
    hide ColumnsOf, ConditionsFor, ParamsFor;
    if keys == [] {
      assert [] + [k] == [k] && [k][1..] == [];
    } else {
      assert keys[0] in keys && (keys + [k])[1..] == keys[1..] + [k];
      OneMoreGroup(keys[1..], columns, k);
    }
  }

  lemma {:induction false} MoreParams(keys: seq<Key>, columns: seq<string>, k: Key)
    requires SameColumns(keys, columns) && ColumnsOf(k) == columns
    ensures Params(keys + [k], columns) == Params(keys, columns) + ParamsFor(k, columns)
  {
    hide ColumnsOf, ConditionsFor, ParamsFor, Groups, TotalArity, Arity;
    if keys == [] {
      assert [] + [k] == [k] && [k][1..] == [];
      assert Params([k], columns) == ParamsFor(k, columns) + Params([], columns);
    } else {
      assert keys[0] in keys && (keys + [k])[1..] == keys[1..] + [k];
      MoreParams(keys[1..], columns, k);
    }
  }

  /** One group per key, its values appended to the flat list. */
  method CompileGroup(key: Key, columns: seq<string>, params: seq<string>)
    returns (group: seq<Condition>, more: seq<string>)
    requires forall c :: c in columns ==> c in ColumnsOf(key)
    ensures group == ConditionsFor(key, columns) && more == params + ParamsFor(key, columns)
  {
    group, more := [], params;
    for i := 0 to |columns|
      invariant group == ConditionsFor(key, columns[..i]) && more == params + ParamsFor(key, columns[..i])
    {
      assert columns[..i + 1] == columns[..i] + [columns[i]];
      OneMoreCondition(key, columns[..i], columns[i]);
      OneMoreValue(key, columns[..i], columns[i]);
      hide ConditionsFor, ParamsFor;
      var value := Lookup(key, columns[i]);
      if value.None? {
        group := group + [IsNull(columns[i])];
      } else {
        group, more := group + [Equals(columns[i])], more + [value.value];
      }
    }
    assert columns[..|columns|] == columns;
  }

  /** The nested loops of `fetch_rows_by_keys`. */
  method Compile(keys: seq<Key>, columns: seq<string>) returns (groups: seq<seq<Condition>>, params: seq<string>)
    requires SameColumns(keys, columns)
    ensures groups == Groups(keys, columns) && params == Params(keys, columns)
  {
    groups, params := [], [];
    for i := 0 to |keys|
      invariant groups == Groups(keys[..i], columns) && params == Params(keys[..i], columns)
    {
      assert keys[..i + 1] == keys[..i] + [keys[i]];
      OneMoreGroup(keys[..i], columns, keys[i]);
      MoreParams(keys[..i], columns, keys[i]);
      hide Groups, Params;
      var group, more := CompileGroup(keys[i], columns, params);
      groups, params := groups + [group], more;
    }
    assert keys[..|keys|] == keys;
  }

  function Selecting(groups: seq<seq<Condition>>, params: seq<string>): Row -> Option<Row>
    requires |params| == TotalArity(groups)
  {
    (row: Row) => if EvalGroups(groups, params, row) == True then Some(row) else None
  }

  /** SQL Server's `fetch_rows_by_keys` on a table. */
  method FetchRowsByKeys(table: seq<Row>, keys: seq<Key>) returns (r: Outcome<seq<Row>>)
    ensures keys == [] ==> r == Done([])
    ensures keys != [] && ColumnsOf(keys[0]) == [] ==> r == Refused(NoKeyColumns)
    ensures keys != [] && ColumnsOf(keys[0]) != [] && !SameColumns(keys, ColumnsOf(keys[0])) ==>
      r == Refused(MixedKeyColumns)
    ensures keys != [] && ColumnsOf(keys[0]) != [] && SameColumns(keys, ColumnsOf(keys[0])) ==>
      r == Done(FilterMap(table, Matching(keys)))
  {
    if keys == [] { return Done([]); }
    var columns := ColumnsOf(keys[0]);
    if columns == [] { return Refused(NoKeyColumns); }
    for i := 0 to |keys|
      invariant SameColumns(keys[..i], columns)
    {
      if ColumnsOf(keys[i]) != columns {
        assert keys[i] in keys;
        return Refused(MixedKeyColumns);
      }
      assert keys[..i + 1] == keys[..i] + [keys[i]];
    }
    assert keys[..|keys|] == keys;
    var groups, params := Compile(keys, columns);
    r := Done(FilterMap(table, Selecting(groups, params)));
    LookupSelectsMatches(table, keys, columns);
  }

  // --- what a lookup means ---------------------------------------------------------------------

  /** The row has exactly the key's values, a NULL matching a NULL. */
  predicate MatchesKey(row: Row, key: Key) {
    forall c :: c in ColumnsOf(key) ==> Get(row, c) == Lookup(key, c)
  }

  predicate MatchesSome(row: Row, keys: seq<Key>) {
    exists k :: k in keys && MatchesKey(row, k)
  }

  function Matching(keys: seq<Key>): Row -> Option<Row> {
    (row: Row) => if MatchesSome(row, keys) then Some(row) else None
  }

  lemma {:induction false} GroupMeansMatch(key: Key, columns: seq<string>, row: Row)
    requires forall c :: c in columns ==> c in ColumnsOf(key)
    ensures EvalGroup(ConditionsFor(key, columns), ParamsFor(key, columns), row) == True <==>
      forall c :: c in columns ==> Get(row, c) == Lookup(key, c)
  {
    if columns != [] {
      var c := columns[0];
      assert c in columns && columns == [c] + columns[1..];
      GroupMeansMatch(key, columns[1..], row);
      var rest := ParamsFor(key, columns[1..]);
      if Lookup(key, c).Some? { assert ([Lookup(key, c).value] + rest)[1..] == rest; }
      else { assert [] + rest == rest; }
    }
  }

  /** The compiled query is true of a row exactly when some key matches it null-safely. */
  lemma {:induction false} GroupsMeanMatch(keys: seq<Key>, columns: seq<string>, row: Row)
    requires SameColumns(keys, columns)
    ensures EvalGroups(Groups(keys, columns), Params(keys, columns), row) == True <==> MatchesSome(row, keys)
  {
    if keys != [] {
      var k := keys[0];
      assert k in keys && keys == [k] + keys[1..];
      GroupMeansMatch(k, columns, row);
      GroupsMeanMatch(keys[1..], columns, row);
      var first, rest := ParamsFor(k, columns), Params(keys[1..], columns);
      assert (first + rest)[..|first|] == first && (first + rest)[|first|..] == rest;
    }
  }

  lemma LookupSelectsMatches(table: seq<Row>, keys: seq<Key>, columns: seq<string>)
    requires SameColumns(keys, columns)
    ensures FilterMap(table, Selecting(Groups(keys, columns), Params(keys, columns)))
      == FilterMap(table, Matching(keys))
  {
    forall row ensures Selecting(Groups(keys, columns), Params(keys, columns))(row) == Matching(keys)(row) {
      GroupsMeanMatch(keys, columns, row);
    }
    FilterMapSame(table, Selecting(Groups(keys, columns), Params(keys, columns)), Matching(keys));
  }

  // --- PostgreSQL's row values -------------------------------------------------------------------

  /** `[key_dict[col] for key_dict in keys for col in key_columns]` */
  function Values(key: Key, columns: seq<string>): (r: seq<Option<string>>)
    requires forall c :: c in columns ==> c in ColumnsOf(key)
    ensures |r| == |columns|
  {
    if columns == [] then []
    else
      var c := columns[0];
      assert c in columns;
      [Lookup(key, c)] + Values(key, columns[1..])
  }

  function AllValues(keys: seq<Key>, columns: seq<string>): (r: seq<Option<string>>)
    requires SameColumns(keys, columns)
    ensures |r| == |keys| * |columns|
  {
    if keys == [] then []
    else
      assert keys[0] in keys;
      StepOver(|keys| - 1, |columns|);
      Values(keys[0], columns) + AllValues(keys[1..], columns)
  }

  /** `(col, ...) = (v, ...)` */
  function RowEq(columns: seq<string>, values: seq<Option<string>>, row: Row): Truth
    requires |values| == |columns|
  {
    if columns == [] then True else And(Eq(Get(row, columns[0]), values[0]), RowEq(columns[1..], values[1..], row))
  }

  /** `(col, ...) IN ((v, ...), ...)` for n row values of one flat parameter list. */
  function RowIn(columns: seq<string>, n: nat, values: seq<Option<string>>, row: Row): Truth
    requires |values| == n * |columns|
  {
    if n == 0 then False
    else
      StepOver(n - 1, |columns|);
      MulLe(0, n - 1, |columns| + 1);
      var w := |columns|;
      assert n * w == (n - 1) * w + w;
      Or(RowEq(columns, values[..w], row), RowIn(columns, n - 1, values[w..], row))
  }

  predicate IsNullFree(key: Key) {
    forall c :: c in ColumnsOf(key) ==> Lookup(key, c).Some?
  }

  lemma {:induction false} RowEqMeansMatch(key: Key, columns: seq<string>, row: Row)
    requires forall c :: c in columns ==> c in ColumnsOf(key)
    ensures RowEq(columns, Values(key, columns), row) == True <==>
      forall c :: c in columns ==> Lookup(key, c).Some? && Get(row, c) == Lookup(key, c)
  {
    if columns != [] {
      var c := columns[0];
      assert c in columns && columns == [c] + columns[1..];
      RowEqMeansMatch(key, columns[1..], row);
    }
  }

  /** The row-value form is true of a row exactly when some null-free key matches it. */
  lemma {:induction false} RowInMeansMatch(keys: seq<Key>, columns: seq<string>, row: Row)
    requires SameColumns(keys, columns)
    ensures RowIn(columns, |keys|, AllValues(keys, columns), row) == True <==>
      exists k :: k in keys && IsNullFree(k) && MatchesKey(row, k)
  {
    if keys != [] {
      var k := keys[0];
      assert k in keys && keys == [k] + keys[1..];
      RowEqMeansMatch(k, columns, row);
      RowInMeansMatch(keys[1..], columns, row);
      var first, rest := Values(k, columns), AllValues(keys[1..], columns);
      assert (first + rest)[..|columns|] == first && (first + rest)[|columns|..] == rest;
    }
  }

  /** The two providers agree on a row unless only keys with a NULL match it; on null-free keys they always agree. */
  lemma ProvidersAgreeIff(keys: seq<Key>, columns: seq<string>, row: Row)
    requires SameColumns(keys, columns)
    ensures var server := EvalGroups(Groups(keys, columns), Params(keys, columns), row) == True;
      var postgres := RowIn(columns, |keys|, AllValues(keys, columns), row) == True;
      && (postgres ==> server)
      && (server == postgres <==>
            (MatchesSome(row, keys) ==> exists k :: k in keys && IsNullFree(k) && MatchesKey(row, k)))
      && ((forall k :: k in keys ==> IsNullFree(k)) ==> server == postgres)
  {
    GroupsMeanMatch(keys, columns, row);
    RowInMeansMatch(keys, columns, row);
  }

  // --- the batched scan -------------------------------------------------------------------------------

  function Least(a: int, b: int): int { if a < b then a else b }

  /** `LIMIT size OFFSET offset` on a stable ordered table. */
  function Page<T>(table: seq<T>, offset: nat, size: nat): seq<T> {
    table[Least(offset, |table|)..Least(offset + size, |table|)]
  }

  function Flatten<T>(batches: seq<seq<T>>): seq<T> {
    if batches == [] then [] else Flatten(batches[..|batches| - 1]) + batches[|batches| - 1]
  }

  lemma PageFollows<T>(table: seq<T>, offset: nat, size: nat)
    requires offset <= |table|
    ensures |Page(table, offset, size)| == Least(size, |table| - offset)
    ensures table[..offset] + Page(table, offset, size) == table[..offset + |Page(table, offset, size)|]
  {
  }

  lemma FlattenSnoc<T>(batches: seq<seq<T>>, batch: seq<T>)
    ensures Flatten(batches + [batch]) == Flatten(batches) + batch
  {
    assert (batches + [batch])[..|batches|] == batches;
  }

  /** So many full pages end at the offset. */
  ghost predicate Reaches(queries: nat, size: nat, offset: nat) { offset == queries * size }

  /** The next page, and how many were full if it is the last. */
  lemma NextQuery(n: nat, offset: nat, queries: nat, size: nat)
    requires Reaches(queries, size, offset) && offset <= n && size >= 1
    ensures Reaches(queries + 1, size, offset + size)
    ensures n - offset < size ==> queries == n / size
  {
    StepOver(queries, size);
    if n - offset < size { DivideWithin(queries, n - offset, size); }
  }

  /** `iter_rows`: pages are fetched until one is not full. */
  method IterRows<T>(table: seq<T>, size: nat) returns (batches: seq<seq<T>>, queries: nat)
    ensures size >= 1 ==> Flatten(batches) == table && queries == |table| / size + 1
    ensures size == 0 ==> batches == [] && queries == 1
    ensures forall i :: 0 <= i < |batches| ==> batches[i] != [] && (i < |batches| - 1 ==> |batches[i]| == size)
    ensures forall i :: 0 <= i < |batches| ==> |batches[i]| <= size
  {
    batches, queries := [], 0;
    var offset := 0;
    while true
      invariant Reaches(queries, size, offset) && (size == 0 ==> queries == 0 && batches == [])
      invariant offset <= |table| && Flatten(batches) == table[..offset]
      invariant forall i :: 0 <= i < |batches| ==> batches[i] != [] && |batches[i]| == size
      decreases |table| - offset
    {
      var batch := Page(table, offset, size);
      PageFollows(table, offset, size);
      FlattenSnoc(batches, batch);
      hide Page, Flatten, Reaches;
      if size >= 1 { NextQuery(|table|, offset, queries, size); }
      queries := queries + 1;
      if batch == [] { return; }
      batches := batches + [batch];
      if |batch| < size { return; }
      offset := offset + size;
    }
  }

  // --- three-valued logic -----------------------------------------------------------------------------------------

  ghost function Rank(t: Truth): nat {
    match t case False => 0 case Unknown => 1 case True => 2
  }

  /** AND is the lesser truth and OR the greater; a comparison with NULL is unknown. */
  lemma LogicIsKleenes(a: Truth, b: Truth, x: Option<string>, y: Option<string>)
    ensures Rank(And(a, b)) == (if Rank(a) <= Rank(b) then Rank(a) else Rank(b))
    ensures Rank(Or(a, b)) == (if Rank(a) <= Rank(b) then Rank(b) else Rank(a))
    ensures Eq(x, y) == Unknown <==> x == None || y == None
    ensures Eq(x, y) == True <==> x == y && x != None
  {
  }
}
