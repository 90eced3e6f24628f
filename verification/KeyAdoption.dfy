/** Adopting a business key, and the record references it then gives. */
module KeyAdoption {
  import opened Collections
  import opened Text
  import opened BusinessKeyDiscovery

  datatype KeyStrategy = SingleColumn | Composite | RowIndexFallback

  datatype ConfirmError = DatasetNotActive | AlreadyReliable | NoColumns | NotVerified | ColumnsDiffer | UnknownColumn

  datatype Column = Column(id: nat, name: string, dataType: string, isActive: bool, isPrimaryKey: bool)

  // --- record references --------------------------------------------------------------

  const NULL_SENTINEL: string := "\U{0}NULL\U{0}"
  const UNIT_SEPARATOR: char := '\U{1F}'

  function RenderCell(cell: Option<Value>, render: Value -> string): string {
    if cell.Some? then render(cell.value) else NULL_SENTINEL
  }

  function RenderCells(row: Row, columns: seq<string>, render: Value -> string): (parts: seq<string>)
    ensures |parts| == |columns|
    ensures forall i :: 0 <= i < |parts| ==> parts[i] == RenderCell(Get(row, columns[i]), render)
  {
    seq(|columns|, i requires 0 <= i < |columns| => RenderCell(Get(row, columns[i]), render))
  }

  function JoinParts(parts: seq<string>): string {
    if parts == [] then ""
    else if |parts| == 1 then parts[0]
    else parts[0] + [UNIT_SEPARATOR] + JoinParts(parts[1..])
  }

  /** `generate_record_ref`, with `str` on values and on the row index as parameters. */
  function RecordRef(strategy: KeyStrategy, columns: seq<string>, row: Row, rowIndex: nat,
                     render: Value -> string): string
    requires strategy == SingleColumn ==> columns != []
  {
    match strategy
    case SingleColumn => RenderCell(Get(row, columns[0]), render)
    case Composite => JoinParts(RenderCells(row, columns, render))
    case RowIndexFallback => "ROWIDX:" + Decimal(rowIndex)
  }

  /** Parts without the separator can be read back from the joined text. */
  lemma {:induction false} JoinIsInjective(a: seq<string>, b: seq<string>)
    requires |a| == |b|
    requires forall p :: p in a || p in b ==> UNIT_SEPARATOR !in p
    requires JoinParts(a) == JoinParts(b)
    ensures a == b
  {
    if |a| == 1 {
      assert a == [a[0]] && b == [b[0]];
    } else if |a| > 1 {
      assert a[0] in a && b[0] in b;
      FirstPart(a[0], JoinParts(a[1..]), b[0], JoinParts(b[1..]));
      JoinIsInjective(a[1..], b[1..]);
      assert a == [a[0]] + a[1..] && b == [b[0]] + b[1..];
    }
  }

  lemma FirstPart(a: string, s: string, b: string, t: string)
    requires UNIT_SEPARATOR !in a && UNIT_SEPARATOR !in b
    requires a + [UNIT_SEPARATOR] + s == b + [UNIT_SEPARATOR] + t
    ensures a == b && s == t
  {
    var x, y := a + [UNIT_SEPARATOR] + s, b + [UNIT_SEPARATOR] + t;
    assert x[|a|] == UNIT_SEPARATOR && y[|b|] == UNIT_SEPARATOR;
    assert forall k :: 0 <= k < |a| ==> x[k] == a[k] && a[k] in a;
    assert forall k :: 0 <= k < |b| ==> y[k] == b[k] && b[k] in b;
    assert |a| == |b|;
    assert x[..|a|] == a && y[..|b|] == b;
    assert x[|a| + 1..] == s && y[|b| + 1..] == t;
  }

  /** Within one key column, different values of the scanned rows are written differently. */
  ghost predicate RendersInjectively(columns: seq<string>, rows: seq<Row>, render: Value -> string) {
    forall i, j, c :: 0 <= i < |rows| && 0 <= j < |rows| && c in columns ==> SameText(rows[i], rows[j], c, render)
  }

  ghost predicate SameText(r: Row, s: Row, c: string, render: Value -> string) {
    Get(r, c).Some? && Get(s, c).Some? && render(Get(r, c).value) == render(Get(s, c).value) ==> Get(r, c) == Get(s, c)
  }

  ghost predicate NoSeparator(columns: seq<string>, rows: seq<Row>, render: Value -> string) {
    forall r, c :: r in rows && c in columns && Get(r, c).Some? ==> UNIT_SEPARATOR !in render(Get(r, c).value)
  }

  function StrategyFor(columns: seq<string>): KeyStrategy {
    if |columns| == 1 then SingleColumn else Composite
  }

  /** Under a key, two different rows of the verified scan never share a record reference. */
  lemma KeyGivesDistinctRefs(columns: seq<string>, rows: seq<Row>, render: Value -> string, i: nat, j: nat)
    requires columns != [] && IsKey(ToSet(columns), rows) && i < j < |rows|
    requires RendersInjectively(columns, rows, render)
    requires |columns| > 1 ==> NoSeparator(columns, rows, render)
    ensures RecordRef(StrategyFor(columns), columns, rows[i], i, render)
         != RecordRef(StrategyFor(columns), columns, rows[j], j, render)
  {
    assert Differ(rows[i], rows[j], ToSet(columns));
    var c :| c in ToSet(columns) && Get(rows[i], c) != Get(rows[j], c);
    assert rows[i] in rows && rows[j] in rows;
    assert SameText(rows[i], rows[j], c, render);
    var k :| 0 <= k < |columns| && columns[k] == c;
    var a, b := RenderCells(rows[i], columns, render), RenderCells(rows[j], columns, render);
    assert a[k] != b[k];
    if |columns| > 1 {
      forall p | p in a || p in b ensures UNIT_SEPARATOR !in p {
        if p in a {
          var m :| 0 <= m < |a| && a[m] == p;
          assert columns[m] in ToSet(columns);
        } else {
          var m :| 0 <= m < |b| && b[m] == p;
          assert columns[m] in ToSet(columns);
        }
      }
      if JoinParts(a) == JoinParts(b) { JoinIsInjective(a, b); }
    }
  }

  /** The separator assumption is needed: two different composite keys can share a reference. */
  lemma SeparatorBreaksInjectivity()
    ensures var render := (v: Value) => match v case Label(t) => t case Number(n) => "";
      var r := map["a" := Some(Label("x\U{1F}")), "b" := Some(Label("y"))];
      var s := map["a" := Some(Label("x")), "b" := Some(Label("\U{1F}y"))];
      && IsKey({"a", "b"}, [r, s])
      && RecordRef(Composite, ["a", "b"], r, 0, render) == RecordRef(Composite, ["a", "b"], s, 1, render)
  {
    var render := (v: Value) => match v case Label(t) => t case Number(n) => "";
    var r := map["a" := Some(Label("x\U{1F}")), "b" := Some(Label("y"))];
    var s := map["a" := Some(Label("x")), "b" := Some(Label("\U{1F}y"))];
    assert Get(r, "a") != Get(s, "a") by { assert |"x\U{1F}"| == 2 && |"x"| == 1; }
    assert Differ(r, s, {"a", "b"});
    assert RenderCells(r, ["a", "b"], render) == ["x\U{1F}", "y"];
    assert RenderCells(s, ["a", "b"], render) == ["x", "\U{1F}y"];
    assert ["x\U{1F}", "y"][1..] == ["y"] && ["x", "\U{1F}y"][1..] == ["\U{1F}y"];
    assert JoinParts(["x\U{1F}", "y"]) == "x\U{1F}" + [UNIT_SEPARATOR] + "y";
    assert JoinParts(["x", "\U{1F}y"]) == "x" + [UNIT_SEPARATOR] + "\U{1F}y";
  }

  // --- the dataset and its declared key ---------------------------------------------------

  function ActiveMeta(c: Column): Option<ColumnMeta> {
    if c.isActive then Some(ColumnMeta(c.name, c.dataType)) else None
  }

  function ActiveMetas(columns: seq<Column>): seq<ColumnMeta> {
    FilterMap(columns, ActiveMeta)
  }

  /** `{c.name: c.id}` of the active columns: the last one of a name counts. */
  function FindActive(columns: seq<Column>, name: string): (r: Option<nat>)
    ensures r.Some? ==> exists c :: c in columns && c.isActive && c.name == name && c.id == r.value
    ensures r.None? ==> forall c :: c in columns && c.isActive ==> c.name != name
  {
    if columns == [] then None
    else
      var c, before := columns[|columns| - 1], columns[..|columns| - 1];
      assert columns == before + [c];
      if c.isActive && c.name == name then Some(c.id) else FindActive(before, name)
  }

  /** Is `ids` the list of the active columns with these names, in this order? */
  ghost predicate Names(columns: seq<Column>, ids: seq<nat>, names: seq<string>) {
    && |ids| == |names|
    && forall i :: 0 <= i < |ids| ==>
         FindActive(columns, names[i]) == Some(ids[i])
         && exists c :: c in columns && c.isActive && c.id == ids[i] && c.name == names[i]
  }

  /** An active column is flagged exactly when it belongs to the key; an inactive one keeps its flag. */
  function Flag(c: Column, ids: seq<nat>): Column {
    if c.isActive then c.(isPrimaryKey := c.id in ids) else c
  }

  class Dataset {
    var isActive: bool
    var keyStrategy: KeyStrategy
    var columns: seq<Column>
    /** dataset_key_columns, by ordinal */
    var keyColumns: seq<nat>

    constructor (columns: seq<Column>)
      ensures this.columns == columns && isActive && keyStrategy == RowIndexFallback && keyColumns == []
    {
      isActive, keyStrategy, keyColumns := true, RowIndexFallback, [];
      this.columns := columns;
    }

    /** Replaces the declared key: old rows go, new rows follow the given order, the flags follow the key. */
    method ApplyKeyColumns(ids: seq<nat>)
      requires ids != []
      modifies this
      ensures isActive == old(isActive)
      ensures keyColumns == ids
      ensures keyStrategy == if |ids| == 1 then SingleColumn else Composite
      ensures |columns| == |old(columns)|
      ensures forall i :: 0 <= i < |columns| ==> columns[i] == Flag(old(columns)[i], ids)
    {
      keyColumns := [];
      for ordinal := 0 to |ids|
        invariant keyColumns == ids[..ordinal]
        invariant columns == old(columns) && isActive == old(isActive)
      {
        keyColumns := keyColumns + [ids[ordinal]];
      }
      for i := 0 to |columns|
        invariant |columns| == |old(columns)| && isActive == old(isActive) && keyColumns == ids
        invariant forall k :: i <= k < |columns| ==> columns[k] == old(columns)[k]
        invariant forall k :: 0 <= k < i ==> columns[k] == Flag(old(columns)[k], ids)
      {
        if columns[i].isActive {
          columns := columns[i := columns[i].(isPrimaryKey := columns[i].id in ids)];
        }
      }
      keyStrategy := if |ids| == 1 then SingleColumn else Composite;
    }

    /**
      Adoption: discovery runs again on the rows fetched now, and only a VERIFIED_UNIQUE candidate that is
      exactly the requested columns is written. A refusal changes nothing.
    */
    method Confirm(requested: seq<string>, rows: seq<Row>, fullScan: bool) returns (error: Option<ConfirmError>)
      modifies this
      ensures error.Some? ==>
        isActive == old(isActive) && keyStrategy == old(keyStrategy)
        && columns == old(columns) && keyColumns == old(keyColumns)
      ensures error.None? ==>
        var result := Discover(ActiveMetas(old(columns)), rows, fullScan);
        && old(isActive) && old(keyStrategy) == RowIndexFallback
        && result.status == VerifiedUnique && result.recommended.Some? && result.recommended.value.columns == requested
        && Names(old(columns), keyColumns, requested)
        && keyStrategy == StrategyFor(requested)
        && |columns| == |old(columns)|
        && forall i :: 0 <= i < |columns| ==> columns[i] == Flag(old(columns)[i], keyColumns)
      ensures error.None? <==>
        var result := Discover(ActiveMetas(old(columns)), rows, fullScan);
        && old(isActive) && old(keyStrategy) == RowIndexFallback && requested != []
        && result.status == VerifiedUnique && result.recommended.Some? && result.recommended.value.columns == requested
      ensures error == Some(DatasetNotActive) <==> !old(isActive)
      ensures error == Some(AlreadyReliable) <==> old(isActive) && old(keyStrategy) != RowIndexFallback
      ensures error == Some(NoColumns) <==> old(isActive) && old(keyStrategy) == RowIndexFallback && requested == []
      ensures error == Some(NotVerified) <==>
        && old(isActive) && old(keyStrategy) == RowIndexFallback && requested != []
        && Discover(ActiveMetas(old(columns)), rows, fullScan).status != VerifiedUnique
      ensures error != Some(UnknownColumn)
    {
      hide Discover;
      if !isActive { return Some(DatasetNotActive); }
      if keyStrategy != RowIndexFallback { return Some(AlreadyReliable); }
      if requested == [] { return Some(NoColumns); }
      var result := DiscoverBusinessKeyCandidates(ActiveMetas(columns), rows, fullScan);
      if result.status != VerifiedUnique { return Some(NotVerified); }
      VerifiedIsRecommended(columns, rows, fullScan);
      if result.recommended.value.columns != requested { return Some(ColumnsDiffer); }
      var ids: seq<nat> := [];
      for i := 0 to |requested|
        invariant |ids| == i && columns == old(columns) && isActive == old(isActive)
        invariant keyStrategy == old(keyStrategy) && keyColumns == old(keyColumns)
        invariant Names(columns, ids, requested[..i])
      {
        var id := FindActive(columns, requested[i]);
        RecommendedIsActive(columns, rows, fullScan, requested[i]);
        if id.None? { return Some(UnknownColumn); }
        ids := ids + [id.value];
      }
      assert requested[..|requested|] == requested;
      ApplyKeyColumns(ids);
      error := None;
    }
  }

  lemma VerifiedIsRecommended(columns: seq<Column>, rows: seq<Row>, fullScan: bool)
    requires Discover(ActiveMetas(columns), rows, fullScan).status == VerifiedUnique
    ensures Discover(ActiveMetas(columns), rows, fullScan).recommended.Some?
  {
    var metas := ActiveMetas(columns);
    hide Search;
    DiscoveryIsExact(metas, rows, fullScan);
  }

  /** A recommended column is always found among the active columns, so the unknown-column refusal is never reached. */
  lemma RecommendedIsActive(columns: seq<Column>, rows: seq<Row>, fullScan: bool, name: string)
    requires Discover(ActiveMetas(columns), rows, fullScan).recommended.Some?
    requires name in Discover(ActiveMetas(columns), rows, fullScan).recommended.value.columns
    ensures FindActive(columns, name).Some?
  {
    var metas := ActiveMetas(columns);
    hide Search, IsKey;
    DiscoveryIsExact(metas, rows, fullScan);
    var r := Discover(metas, rows, fullScan);
    assert r.recommended.value in r.candidates;
    assert name in ToSet(r.recommended.value.columns);
    assert name in EligibleNames(metas);
    FilterMapMember(metas, EligibleName, name);
    var meta :| meta in metas && EligibleName(meta) == Some(name);
    FilterMapMember(columns, ActiveMeta, meta);
  }

  /** After an adoption, distinct rows of the verified scan have distinct record references. */
  lemma AdoptedKeyIdentifiesRows(columns: seq<Column>, requested: seq<string>, rows: seq<Row>, fullScan: bool,
                                 render: Value -> string, i: nat, j: nat)
    requires requested != [] && Discover(ActiveMetas(columns), rows, fullScan).status == VerifiedUnique
    requires Discover(ActiveMetas(columns), rows, fullScan).recommended.Some?
    requires Discover(ActiveMetas(columns), rows, fullScan).recommended.value.columns == requested
    requires RendersInjectively(requested, rows, render)
    requires |requested| > 1 ==> NoSeparator(requested, rows, render)
    requires i < j < |rows|
    ensures RecordRef(StrategyFor(requested), requested, rows[i], i, render)
         != RecordRef(StrategyFor(requested), requested, rows[j], j, render)
  {
    var metas := ActiveMetas(columns);
    assert IsKey(ToSet(requested), rows) by {
      hide Search, EligibleNames, IsKey;
      DiscoveryIsExact(metas, rows, fullScan);
      var r := Discover(metas, rows, fullScan);
      assert r.recommended.value in r.candidates;
    }
    hide Discover, IsKey, RecordRef;
    KeyGivesDistinctRefs(requested, rows, render, i, j);
  }
}
