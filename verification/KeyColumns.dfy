/** The business-key search on a table's columns, and what record references are made of. */
module KeyColumns {
  import opened Collections
  import opened Text
  import opened BusinessKeyDiscovery
  import opened KeyAdoption
  import TemplateEvidence
  import TemplateLearning

  // --- the columns that may be part of a key ------------------------------------------------------------

  ghost predicate IsKeyType(dataType: string) {
    || IsUpperText(dataType, "STRING") || IsUpperText(dataType, "INTEGER")
    || IsUpperText(dataType, "DATE") || IsUpperText(dataType, "DATETIME")
  }

  lemma EligibleIffKeyType(c: ColumnMeta)
    ensures IsEligible(c) <==> IsKeyType(c.dataType)
  {
    UpperCaseIff(c.dataType, "STRING");
    UpperCaseIff(c.dataType, "INTEGER");
    UpperCaseIff(c.dataType, "DATE");
    UpperCaseIff(c.dataType, "DATETIME");
    hide UpperCase, IsUpperText;
  }

  ghost predicate IsKeyColumn(columns: seq<ColumnMeta>, name: string) {
    exists c :: c in columns && c.name == name && IsKeyType(c.dataType)
  }

  lemma EligibleNamesAre(columns: seq<ColumnMeta>, name: string)
    ensures name in EligibleNames(columns) <==> IsKeyColumn(columns, name)
  {
    FilterMapMember(columns, EligibleName, name);
    forall c ensures IsEligible(c) <==> IsKeyType(c.dataType) { EligibleIffKeyType(c); }
    hide IsEligible, IsKeyType, FilterMap;
  }

  /** The columns of any other type are reported as rejected, and no others. */
  lemma OtherTypesAreRejected(columns: seq<ColumnMeta>, rows: seq<Row>, fullScan: bool, c: ColumnMeta)
    ensures c in Discover(columns, rows, fullScan).rejected <==> c in columns && !IsKeyType(c.dataType)
  {
    var rejected := FilterMap(columns, Ineligible);
    FilterMapMember(columns, Ineligible, c);
    EligibleIffKeyType(c);
    hide IsEligible, IsKeyType, FilterMap, EligibleNames;
    if |rows| >= 2 && EligibleNames(columns) != [] {
      RejectedIsCarried(EligibleNames(columns), rows, fullScan, rejected, 1, [], []);
    }
  }

  lemma {:induction false} RejectedIsCarried(names: seq<string>, rows: seq<Row>, fullScan: bool,
                                             rejected: seq<ColumnMeta>, width: nat, evaluated: seq<Evidence>,
                                             widths: seq<nat>)
    ensures Search(names, rows, fullScan, rejected, width, evaluated, widths).rejected == rejected
    decreases MAX_COMPOSITE_WIDTH + 1 - width
  {
    hide Combinations, DisplaySort, FilterMap;
    if width <= MAX_COMPOSITE_WIDTH {
      var found := EvaluateAll(Combinations(names, width), rows, fullScan);
      RejectedIsCarried(names, rows, fullScan, rejected, width + 1, evaluated + found, widths + [width]);
    }
  }

  // --- keys of the table --------------------------------------------------------------------------------------

  /** A set of one to three columns of those types that is a key. */
  ghost predicate IsTableKey(s: set<string>, columns: seq<ColumnMeta>, rows: seq<Row>) {
    1 <= |s| <= 3 && (forall c :: c in s ==> IsKeyColumn(columns, c)) && IsKey(s, rows)
  }

  ghost predicate IsNarrowest(s: set<string>, columns: seq<ColumnMeta>, rows: seq<Row>) {
    IsTableKey(s, columns, rows) && forall t :: IsTableKey(t, columns, rows) ==> |s| <= |t|
  }

  lemma SubsetIffKeyColumns(s: set<string>, columns: seq<ColumnMeta>)
    ensures s <= ToSet(EligibleNames(columns)) <==> forall c :: c in s ==> IsKeyColumn(columns, c)
  {
    forall c ensures c in ToSet(EligibleNames(columns)) <==> IsKeyColumn(columns, c) {
      EligibleNamesAre(columns, c);
    }
    hide EligibleNames, IsKeyColumn;
  }

  /** The candidates are the narrowest keys of the table, and there is none exactly if the table has no such key. */
  lemma CandidatesAreTheNarrowestKeys(columns: seq<ColumnMeta>, rows: seq<Row>, fullScan: bool)
    requires |rows| >= 2
    ensures var r := Discover(columns, rows, fullScan);
      && (forall s :: IsNarrowest(s, columns, rows) <==> IsCandidate(r, s))
      && (r.status == NoCandidate <==> forall s :: !IsTableKey(s, columns, rows))
  {
    var names, r := EligibleNames(columns), Discover(columns, rows, fullScan);
    forall s ensures s <= ToSet(names) <==> forall c :: c in s ==> IsKeyColumn(columns, c) {
      SubsetIffKeyColumns(s, columns);
    }
    if names == [] {
      forall s ensures !IsTableKey(s, columns, rows) { NothingIsKey(s, columns, rows); }
      assert r.candidates == [] && r.status == NoCandidate;
    } else {
      DiscoveryIsExact(columns, rows, fullScan);
      hide Discover, EligibleNames, IsKey, IsKeyColumn, ToSet;
      assert MAX_COMPOSITE_WIDTH == 3;
      ExactIsNarrowest(r, names, columns, rows, fullScan);
    }
  }

  ghost predicate IsCandidate(r: Result, s: set<string>) {
    exists e :: e in r.candidates && ToSet(e.columns) == s
  }

  lemma NothingIsKey(s: set<string>, columns: seq<ColumnMeta>, rows: seq<Row>)
    requires EligibleNames(columns) == []
    ensures !IsTableKey(s, columns, rows)
  {
    SubsetIffKeyColumns(s, columns);
    assert ToSet(EligibleNames(columns)) == {};
    hide IsKeyColumn, IsKey;
    if s != {} { assert !(s <= {}); }
  }

  lemma ExactIsNarrowest(r: Result, names: seq<string>, columns: seq<ColumnMeta>, rows: seq<Row>, fullScan: bool)
    requires IsExact(r, names, rows, fullScan)
    requires forall s: set<string> :: s <= ToSet(names) <==> forall c :: c in s ==> IsKeyColumn(columns, c)
    ensures forall s :: IsNarrowest(s, columns, rows) <==> IsCandidate(r, s)
    ensures r.status == NoCandidate <==> forall s :: !IsTableKey(s, columns, rows)
  {
    hide IsKey, IsKeyColumn;
    forall s ensures IsTableKey(s, columns, rows) <==> 1 <= |s| <= 3 && s <= ToSet(names) && IsKey(s, rows) { }
    if r.status != NoCandidate {
      var w := |r.candidates[0].columns|;
      forall e | e in r.candidates
        ensures |ToSet(e.columns)| == w && IsTableKey(ToSet(e.columns), columns, rows)
      {
        DistinctCardinality(e.columns);
        assert ToSet(e.columns) == set x | x in e.columns;
      }
      hide ToSet;
      assert r.candidates[0] in r.candidates;
      var first := ToSet(r.candidates[0].columns);
      forall s | IsTableKey(s, columns, rows) ensures |s| >= w { }
      forall s ensures IsNarrowest(s, columns, rows) <==> IsCandidate(r, s) {
        if IsNarrowest(s, columns, rows) { assert |s| <= |first| == w; }
      }
    }
  }

  /** One narrowest key is verified by a full scan and a sample candidate otherwise; several are ambiguous. */
  lemma OneNarrowestKeyIsRecommended(columns: seq<ColumnMeta>, rows: seq<Row>, fullScan: bool, s: set<string>)
    requires |rows| >= 2 && IsNarrowest(s, columns, rows)
    ensures var r := Discover(columns, rows, fullScan);
      && (r.recommended.Some? ==>
            && ToSet(r.recommended.value.columns) == s && r.recommended.value.level == Some(r.status)
            && r.status == (if fullScan then VerifiedUnique else SampleCandidate)
            && forall t :: IsNarrowest(t, columns, rows) ==> t == s)
      && (r.recommended.None? ==> r.status == AmbiguousKeys && |r.candidates| >= 2)
  {
    CandidatesAreTheNarrowestKeys(columns, rows, fullScan);
    assert EligibleNames(columns) != [] by { if EligibleNames(columns) == [] { NothingIsKey(s, columns, rows); } }
    DiscoveryIsExact(columns, rows, fullScan);
    hide Discover, EligibleNames, IsKey, IsNarrowest, IsTableKey, ToSet, MinimalWidth, NoKeyUpTo;
  }

  // --- the order of a key's columns ------------------------------------------------------------------------------

  /** These columns are found at these positions, from left to right. */
  ghost predicate ArePlaces(at: seq<nat>, picked: seq<string>, names: seq<string>) {
    && |at| == |picked|
    && (forall i :: 0 <= i < |at| ==> at[i] < |names| && names[at[i]] == picked[i])
    && forall i, j :: 0 <= i < j < |at| ==> at[i] < at[j]
  }

  ghost predicate AreInOrder(picked: seq<string>, names: seq<string>) {
    exists at :: ArePlaces(at, picked, names)
  }

  ghost predicate KeepOrder(candidates: seq<Evidence>, names: seq<string>) {
    InDisplayOrder(candidates) && forall e :: e in candidates ==> AreInOrder(e.columns, names)
  }

  ghost function NamesOf(columns: seq<ColumnMeta>): (names: seq<string>)
    ensures |names| == |columns| && forall i :: 0 <= i < |columns| ==> names[i] == columns[i].name
  {
    seq(|columns|, i requires 0 <= i < |columns| => columns[i].name)
  }

  /** Candidates have their columns from left to right as in the table, and are listed in display order. */
  lemma KeysKeepTableOrder(columns: seq<ColumnMeta>, rows: seq<Row>, fullScan: bool)
    ensures KeepOrder(Discover(columns, rows, fullScan).candidates, NamesOf(columns))
  {
    var names, r := EligibleNames(columns), Discover(columns, rows, fullScan);
    var outer := EligibleAt(columns);
    hide EligibleNames, InDisplayOrder, ArePlaces;
    if |rows| >= MIN_OBSERVATIONS && names != [] {
      SearchKeepsOrder(names, rows, fullScan, FilterMap(columns, Ineligible), 1, [], []);
      forall e | e in r.candidates ensures AreInOrder(e.columns, NamesOf(columns)) {
        var inner :| ArePlaces(inner, e.columns, names);
        var at := PlacesCompose(inner, e.columns, outer, names, NamesOf(columns));
      }
    } else {
      NothingIsInOrder(NamesOf(columns));
    }
  }

  lemma NothingIsInOrder(names: seq<string>)
    ensures KeepOrder([], names)
  {
  }

  lemma PlacesCompose(inner: seq<nat>, picked: seq<string>, outer: seq<nat>, names: seq<string>, all: seq<string>)
    returns (at: seq<nat>)
    requires ArePlaces(inner, picked, names) && ArePlaces(outer, names, all)
    ensures ArePlaces(at, picked, all)
  {
    at := seq(|inner|, i requires 0 <= i < |inner| => outer[inner[i]]);
  }

  lemma PlacesShift(at: seq<nat>, picked: seq<string>, first: string, names: seq<string>) returns (on: seq<nat>)
    requires ArePlaces(at, picked, names)
    ensures ArePlaces(on, picked, [first] + names)
    ensures ArePlaces([0] + on, [first] + picked, [first] + names)
  {
    on := seq(|at|, i requires 0 <= i < |at| => at[i] + 1);
  }

  lemma {:induction false} EligibleAt(columns: seq<ColumnMeta>) returns (at: seq<nat>)
    ensures ArePlaces(at, EligibleNames(columns), NamesOf(columns))
  {
    if columns == [] {
      at := [];
    } else {
      var rest := EligibleAt(columns[1..]);
      hide ArePlaces, IsEligible;
      var on := PlacesShift(rest, EligibleNames(columns[1..]), columns[0].name, NamesOf(columns[1..]));
      assert NamesOf(columns) == [columns[0].name] + NamesOf(columns[1..]);
      at := if IsEligible(columns[0]) then [0] + on else on;
    }
  }

  lemma CombinationSplits(names: seq<string>, width: nat, combo: seq<string>) returns (rest: seq<string>)
    requires combo in Combinations(names, width)
    ensures if width == 0 then combo == [] else
      && names != []
      && (|| combo in Combinations(names[1..], width)
          || (combo == [names[0]] + rest && rest in Combinations(names[1..], width - 1)))
  {
    hide Prepend;
    rest := [];
    if width > 0 && combo !in Combinations(names[1..], width) {
      PrependedFrom(names[0], Combinations(names[1..], width - 1), combo);
      rest := combo[1..];
    }
  }

  lemma NoneInOrder(names: seq<string>)
    ensures AreInOrder([], names)
  {
    assert ArePlaces([], [], names);
  }

  lemma OrderShifts(picked: seq<string>, names: seq<string>)
    requires names != [] && AreInOrder(picked, names[1..])
    ensures AreInOrder(picked, names) && AreInOrder([names[0]] + picked, names)
  {
    hide ArePlaces;
    var at :| ArePlaces(at, picked, names[1..]);
    var on := PlacesShift(at, picked, names[0], names[1..]);
    assert names == [names[0]] + names[1..];
  }

  lemma {:induction false} CombinationKeepsOrder(names: seq<string>, width: nat, combo: seq<string>)
    requires combo in Combinations(names, width)
    ensures AreInOrder(combo, names)
    decreases |names|
  {
    hide *;
    var rest := CombinationSplits(names, width, combo);
    NoneInOrder(names);
    if width > 0 {
      if combo in Combinations(names[1..], width) {
        CombinationKeepsOrder(names[1..], width, combo);
        OrderShifts(combo, names);
      } else {
        CombinationKeepsOrder(names[1..], width - 1, rest);
        OrderShifts(rest, names);
      }
    }
  }

  lemma {:induction false} SearchKeepsOrder(names: seq<string>, rows: seq<Row>, fullScan: bool,
                                            rejected: seq<ColumnMeta>, width: nat, evaluated: seq<Evidence>,
                                            widths: seq<nat>)
    ensures KeepOrder(Search(names, rows, fullScan, rejected, width, evaluated, widths).candidates, names)
    decreases MAX_COMPOSITE_WIDTH + 1 - width
  {
    hide Combinations, EvaluateAll, FilterMap, KeepOrder, DisplaySort;
    if width > MAX_COMPOSITE_WIDTH || width > |names| {
      NothingIsInOrder(names);
    } else {
      var found := EvaluateAll(Combinations(names, width), rows, fullScan);
      PassingKeepsOrder(names, rows, fullScan, width);
      SearchKeepsOrder(names, rows, fullScan, rejected, width + 1, evaluated + found, widths + [width]);
    }
  }

  lemma PassingKeepsOrder(names: seq<string>, rows: seq<Row>, fullScan: bool, width: nat)
    ensures KeepOrder(DisplaySort(FilterMap(EvaluateAll(Combinations(names, width), rows, fullScan), Accepted)), names)
  {
    var combos := Combinations(names, width);
    var found := EvaluateAll(combos, rows, fullScan);
    SameMembers(DisplaySort(FilterMap(found, Accepted)), FilterMap(found, Accepted));
    forall e | e in FilterMap(found, Accepted) ensures AreInOrder(e.columns, names) {
      FilterMapMember(found, Accepted, e);
      hide FilterMap, DisplaySort, Combinations, ArePlaces;
      var i :| 0 <= i < |found| && found[i] == e;
      assert e.columns == combos[i];
      CombinationKeepsOrder(names, width, combos[i]);
    }
  }

  // --- the counts reported with a column set --------------------------------------------------------------------

  ghost predicate HasNull(row: Row, columns: seq<string>) {
    exists c :: c in columns && (c !in row || row[c] == None)
  }

  ghost function NullRows(columns: seq<string>, rows: seq<Row>): set<nat> {
    set i: nat | i < |rows| && HasNull(rows[i], columns)
  }

  ghost function FullRows(columns: seq<string>, rows: seq<Row>): set<nat> {
    set i: nat | i < |rows| && !HasNull(rows[i], columns)
  }

  lemma HasNullIff(row: Row, columns: seq<string>)
    ensures None in Tuple(row, columns) <==> HasNull(row, columns)
  {
    var t := Tuple(row, columns);
    if None in t {
      var i :| 0 <= i < |t| && t[i] == None;
      assert columns[i] in columns;
    }
    if c :| c in columns && (c !in row || row[c] == None) {
      var i :| 0 <= i < |columns| && columns[i] == c;
      assert t[i] == None;
    }
  }

  /** The different value tuples of the rows without a null. */
  ghost function ValueTuples(columns: seq<string>, rows: seq<Row>): set<seq<Option<Value>>> {
    set i | i in FullRows(columns, rows) :: Tuple(rows[i], columns)
  }

  lemma {:induction false} KeysAre(columns: seq<string>, rows: seq<Row>)
    ensures |Keys(columns, rows)| == |FullRows(columns, rows)|
    ensures forall k :: k in Keys(columns, rows) <==> k in ValueTuples(columns, rows)
  {
    forall i: nat | i < |rows| ensures KeyOf(columns)(rows[i]).Some? <==> !HasNull(rows[i], columns) {
      HasNullIff(rows[i], columns);
    }
    FilterMapCount(rows, KeyOf(columns), FullRows(columns, rows));
    hide HasNull, FilterMap;
    forall k ensures k in Keys(columns, rows) <==> k in ValueTuples(columns, rows) {
      FilterMapMember(rows, KeyOf(columns), k);
      if row :| row in rows && KeyOf(columns)(row) == Some(k) {
        var i :| 0 <= i < |rows| && rows[i] == row;
        assert i in FullRows(columns, rows);
      }
      if i :| i in FullRows(columns, rows) && Tuple(rows[i], columns) == k { assert rows[i] in rows; }
    }
  }

  /** Rows with a null, different tuples of the others, and why the set is rejected. */
  lemma EvidenceCounts(columns: seq<string>, rows: seq<Row>, fullScan: bool)
    ensures var e := Evaluate(columns, rows, fullScan);
      && e.totalRows == |rows| && e.nullKeyRows == |NullRows(columns, rows)|
      && e.distinctKeys == |ValueTuples(columns, rows)|
      && (e.duplicateGroups > 0 <==> |ValueTuples(columns, rows)| < |rows| - |NullRows(columns, rows)|)
      && (e.rejection == Some(NullsAndDuplicates) <==> e.nullKeyRows > 0 && e.duplicateGroups > 0)
      && (e.rejection == Some(Nulls) <==> e.nullKeyRows > 0 && e.duplicateGroups == 0)
      && (e.rejection == Some(Duplicates) <==> e.nullKeyRows == 0 && e.duplicateGroups > 0)
      && (e.rejection == Some(NoRows) <==> rows == [])
  {
    var keys := Keys(columns, rows);
    KeysAre(columns, rows);
    NullsAndOthers(columns, rows);
    FilterMapLength(rows, KeyOf(columns));
    assert (set k | k in keys) == ValueTuples(columns, rows);
    RepeatedIffFewer(keys);
    hide Keys, ValueTuples, NullRows, FullRows, Repeated;
  }

  lemma {:induction false} NullsAndOthers(columns: seq<string>, rows: seq<Row>)
    ensures |NullRows(columns, rows)| + |FullRows(columns, rows)| == |rows|
    decreases |rows|
  {
    if rows != [] {
      var n := |rows| - 1;
      var before := rows[..n];
      NullsAndOthers(columns, before);
      LastRowIsNullOrNot(columns, rows);
      hide NullRows, FullRows, HasNull;
    }
  }

  lemma LastRowIsNullOrNot(columns: seq<string>, rows: seq<Row>)
    requires rows != []
    ensures var n := |rows| - 1;
      && n !in NullRows(columns, rows[..n]) && n !in FullRows(columns, rows[..n])
      && NullRows(columns, rows) == NullRows(columns, rows[..n]) + (if HasNull(rows[n], columns) then {n} else {})
      && FullRows(columns, rows) == FullRows(columns, rows[..n]) + (if HasNull(rows[n], columns) then {} else {n})
  {
    hide HasNull;
  }

  lemma RepeatedIffFewer(keys: seq<seq<Option<Value>>>)
    ensures |set k | k in keys| <= |keys|
    ensures Repeated(keys) != {} <==> |set k | k in keys| < |keys|
    ensures |Repeated(keys)| > 0 <==> Repeated(keys) != {}
  {
    DistinctCardinality(keys);
    if forall i, j :: 0 <= i < j < |keys| ==> keys[i] != keys[j] {
      forall k | k in keys ensures Count(keys, k) <= 1 { CountsOfDistinct(keys, k); }
      assert Repeated(keys) == {};
    } else {
      var i, j :| 0 <= i < j < |keys| && keys[i] == keys[j];
      TwiceCounts(keys, i, j);
      assert keys[i] in Repeated(keys);
    }
  }

  lemma {:induction false} TwiceCounts(keys: seq<seq<Option<Value>>>, i: nat, j: nat)
    requires i < j < |keys| && keys[i] == keys[j]
    ensures Count(keys, keys[i]) > 1
  {
    if i > 0 {
      TwiceCounts(keys[1..], i - 1, j - 1);
    } else {
      assert keys[1..][j - 1] in keys[1..];
    }
  }

  // --- the order of the candidates --------------------------------------------------------------------------------

  /** a is a proper prefix of b, or has the smaller text where they first differ. */
  ghost predicate IsColumnsLessAt(a: seq<string>, b: seq<string>, k: int) {
    && 0 <= k <= |a| && k < |b| && a[..k] == b[..k]
    && (k == |a| || exists j :: IsLessAt(a[k], b[k], j))
  }

  lemma {:induction false} ColumnsLessIffFirstDifference(a: seq<string>, b: seq<string>)
    ensures ColumnsLess(a, b) <==> exists k :: IsColumnsLessAt(a, b, k)
  {
    if a == [] || b == [] {
      assert a[..0] == b[..0];
      if b != [] { assert IsColumnsLessAt(a, b, 0); }
    } else {
      LessIffFirstDifference(a[0], b[0]);
      LessIsTotal(a[0], b[0]);
      ColumnsLessIffFirstDifference(a[1..], b[1..]);
      hide IsLessAt, Less;
      assert a[..0] == b[..0];
      if Less(a[0], b[0]) { assert IsColumnsLessAt(a, b, 0); }
      if a[0] == b[0] {
        if k :| IsColumnsLessAt(a[1..], b[1..], k) { ColumnsLessNext(a, b, k); }
      }
      forall k | IsColumnsLessAt(a, b, k) ensures ColumnsLess(a, b) {
        if k > 0 {
          assert a[..k][0] == b[..k][0];
          ColumnsLessNext(a, b, k - 1);
        }
      }
    }
  }

  lemma ColumnsLessNext(a: seq<string>, b: seq<string>, k: int)
    requires a != [] && b != [] && a[0] == b[0] && k >= 0
    ensures IsColumnsLessAt(a[1..], b[1..], k) <==> IsColumnsLessAt(a, b, k + 1)
  {
    hide IsLessAt;
    if k < |a| && k < |b| {
      assert a[..k + 1] == [a[0]] + a[1..][..k] && b[..k + 1] == [b[0]] + b[1..][..k];
      assert a[1..][..k] == a[..k + 1][1..] && b[1..][..k] == b[..k + 1][1..];
    }
  }

  // --- record references ---------------------------------------------------------------------------------------------

  /** A cell's text, or the marker of a null. */
  ghost predicate IsCellText(text: string, row: Row, c: string, render: Value -> string) {
    if c in row && row[c].Some? then text == render(row[c].value) else text == "\U{0}NULL\U{0}"
  }

  /**
    The reference of a single key column is its cell; of several, their cells in key order, each in its place, with a
    unit separator between them; without a key it is the row's number after a fixed mark.
  */
  lemma ReferencesAre(strategy: KeyStrategy, columns: seq<string>, row: Row, rowIndex: nat, render: Value -> string,
                      parts: seq<string>)
    requires columns != [] && |parts| == |columns|
    requires forall k :: 0 <= k < |columns| ==> IsCellText(parts[k], row, columns[k], render)
    ensures var ref := RecordRef(strategy, columns, row, rowIndex, render);
      match strategy
      case SingleColumn => ref == parts[0]
      case Composite => TemplateLearning.IsCore(ref, TemplateEvidence.AsIs, "\U{1F}", parts)
      case RowIndexFallback => ref == "ROWIDX:" + Decimal(rowIndex)
  {
    forall k | 0 <= k < |columns| ensures RenderCell(Get(row, columns[k]), render) == parts[k] {
      assert IsCellText(parts[k], row, columns[k], render);
    }
    assert RenderCells(row, columns, render) == parts;
    if strategy == Composite {
      JoinsAlike(parts);
      assert TemplateEvidence.MapCases(TemplateEvidence.AsIs, parts) == parts;
      TemplateLearning.CoreIffJoined(JoinParts(parts), TemplateEvidence.AsIs, "\U{1F}", parts);
    }
  }

  lemma {:induction false} JoinsAlike(parts: seq<string>)
    ensures JoinParts(parts) == TemplateEvidence.Join("\U{1F}", parts)
  {
    if |parts| > 1 { JoinsAlike(parts[1..]); }
  }

  /** Without a key, different rows have different references. */
  lemma RowNumbersDiffer(columns: seq<string>, r: Row, s: Row, i: nat, j: nat, render: Value -> string)
    requires i != j
    ensures RecordRef(RowIndexFallback, columns, r, i, render) != RecordRef(RowIndexFallback, columns, s, j, render)
  {
    ParseDecimal(i);
    ParseDecimal(j);
    var a, b := "ROWIDX:" + Decimal(i), "ROWIDX:" + Decimal(j);
    assert a[7..] == Decimal(i) && b[7..] == Decimal(j);
    hide Decimal;
  }

  // --- the active columns -------------------------------------------------------------------------------------------

  /** Column i is active, has this name, and no later active column has it. */
  ghost predicate IsLastActive(columns: seq<Column>, i: int, name: string) {
    && 0 <= i < |columns| && columns[i].isActive && columns[i].name == name
    && forall j :: i < j < |columns| && columns[j].isActive ==> columns[j].name != name
  }

  lemma {:induction false} FoundIsTheLast(columns: seq<Column>, name: string, id: nat)
    ensures FindActive(columns, name) == Some(id) <==>
      exists i :: IsLastActive(columns, i, name) && columns[i].id == id
    decreases |columns|
  {
    if columns != [] {
      var n := |columns| - 1;
      var c, before := columns[n], columns[..n];
      FoundIsTheLast(before, name, id);
      assert columns == before + [c];
      if c.isActive && c.name == name {
        assert IsLastActive(columns, n, name);
      } else {
        hide IsLastActive;
        forall i ensures IsLastActive(columns, i, name) <==> IsLastActive(before, i, name) {
          LastActiveStays(before, c, i, name);
        }
        forall i | IsLastActive(before, i, name) ensures 0 <= i < n && before[i] == columns[i] {
          LastIsInside(before, i, name);
        }
      }
    }
  }

  lemma LastActiveStays(before: seq<Column>, c: Column, i: int, name: string)
    requires !c.isActive || c.name != name
    ensures IsLastActive(before + [c], i, name) <==> IsLastActive(before, i, name)
  {
    if 0 <= i < |before| {
      assert forall j :: i < j < |before| ==> (before + [c])[j] == before[j];
    }
  }

  lemma LastIsInside(columns: seq<Column>, i: int, name: string)
    requires IsLastActive(columns, i, name)
    ensures 0 <= i < |columns|
  {
  }

  /** Discovery sees the names and types of the active columns, and no others. */
  lemma ActiveColumnsAreSeen(columns: seq<Column>, meta: ColumnMeta)
    ensures meta in ActiveMetas(columns) <==>
      exists c :: c in columns && c.isActive && c.name == meta.name && c.dataType == meta.dataType
  {
    FilterMapMember(columns, ActiveMeta, meta);
  }
}
