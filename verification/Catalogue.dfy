/** The discovery catalogue: rows keyed by the database's unique names, and what a discovery run does to them. */
module Catalogue {
  import opened Collections

  type Id = nat

  datatype SchemaRow = SchemaRow(id: Id, active: bool)
  datatype DatasetRow = DatasetRow(id: Id, objectType: string, active: bool, rowCount: Option<int>, columnCount: nat)
  datatype ColumnRow = ColumnRow(id: Id, ordinal: int, dataType: string, active: bool)

  /** Schemas by connection and name, datasets by schema and name, columns by dataset and name. */
  datatype Db = Db(schemas: map<(Id, string), SchemaRow>, datasets: map<(Id, string), DatasetRow>,
                   columns: map<(Id, string), ColumnRow>, nextId: Id)

  datatype ColumnInfo = ColumnInfo(name: string, ordinal: int, dataType: string)
  datatype Read = Read(objectType: string, columns: seq<ColumnInfo>, rowCount: Option<int>)

  /** What the source answers; None is a timeout or a query error. */
  datatype DatasetListing = DatasetListing(name: string, read: Option<Read>)
  datatype SchemaListing = SchemaListing(name: string, datasets: Option<seq<DatasetListing>>)

  /** The units of work of a run, in order. */
  datatype Event = SeenSchema(schema: string) | ReadDataset(schema: string, dataset: string, read: Read)

  // --- upserts -----------------------------------------------------------------------------

  function UpsertSchema(db: Db, connection: Id, name: string): Db {
    var key := (connection, name);
    if key in db.schemas then db.(schemas := db.schemas[key := db.schemas[key].(active := true)])
    else db.(schemas := db.schemas[key := SchemaRow(db.nextId, true)], nextId := db.nextId + 1)
  }

  function PutColumn(db: Db, dataset: Id, info: ColumnInfo): Db {
    var key := (dataset, info.name);
    if key in db.columns then
      db.(columns := db.columns[key := ColumnRow(db.columns[key].id, info.ordinal, info.dataType, true)])
    else
      db.(columns := db.columns[key := ColumnRow(db.nextId, info.ordinal, info.dataType, true)],
          nextId := db.nextId + 1)
  }

  function PutColumns(db: Db, dataset: Id, infos: seq<ColumnInfo>): Db {
    if infos == [] then db
    else PutColumn(PutColumns(db, dataset, infos[..|infos| - 1]), dataset, infos[|infos| - 1])
  }

  function Names(infos: seq<ColumnInfo>): set<string> {
    set i | i in infos :: i.name
  }

  /** The dataset's columns that were not seen are deactivated. */
  function Reconcile(db: Db, dataset: Id, seen: set<string>): Db {
    db.(columns := map k | k in db.columns ::
      if k.0 == dataset && k.1 !in seen then db.columns[k].(active := false) else db.columns[k])
  }

  function ActiveColumns(db: Db, dataset: Id): set<string> {
    set k | k in db.columns && k.0 == dataset && db.columns[k].active :: k.1
  }

  function PutDataset(db: Db, schema: Id, name: string, read: Read): Db {
    var key := (schema, name);
    if key in db.datasets then
      var row := db.datasets[key].(objectType := read.objectType, active := true, rowCount := read.rowCount);
      db.(datasets := db.datasets[key := row])
    else
      db.(datasets := db.datasets[key := DatasetRow(db.nextId, read.objectType, true, read.rowCount, 0)],
          nextId := db.nextId + 1)
  }

  function Recount(db: Db, key: (Id, string)): Db
    requires key in db.datasets
  {
    db.(datasets := db.datasets[key := db.datasets[key].(columnCount := |ActiveColumns(db, db.datasets[key].id)|)])
  }

  /** `upsert_dataset`, without the key columns */
  function UpsertDataset(db: Db, schema: Id, name: string, read: Read): Db {
    var put := PutDataset(db, schema, name, read);
    var id := put.datasets[(schema, name)].id;
    PutColumnsFrame(put, id, read.columns);
    Recount(Reconcile(PutColumns(put, id, read.columns), id, Names(read.columns)), (schema, name))
  }

  // --- a run ------------------------------------------------------------------------------------

  function Apply(db: Db, connection: Id, e: Event): Db {
    match e
    case SeenSchema(s) => UpsertSchema(db, connection, s)
    case ReadDataset(s, d, read) =>
      if (connection, s) in db.schemas then UpsertDataset(db, db.schemas[(connection, s)].id, d, read) else db
  }

  function Fold(db: Db, connection: Id, events: seq<Event>): Db {
    if events == [] then db else Apply(Fold(db, connection, events[..|events| - 1]), connection, events[|events| - 1])
  }

  /** The successful reads of one schema. */
  function Reads(schema: string, datasets: seq<DatasetListing>): seq<Event> {
    if datasets == [] then []
    else (if datasets[0].read.None? then [] else [ReadDataset(schema, datasets[0].name, datasets[0].read.value)])
         + Reads(schema, datasets[1..])
  }

  function Events(listing: seq<SchemaListing>): seq<Event> {
    if listing == [] then []
    else
      [SeenSchema(listing[0].name)]
      + (if listing[0].datasets.None? then [] else Reads(listing[0].name, listing[0].datasets.value))
      + Events(listing[1..])
  }

  function SchemasSeen(events: seq<Event>): set<string> {
    set e | e in events && e.SeenSchema? :: e.schema
  }

  function DatasetsRead(events: seq<Event>): set<(string, string)> {
    set e | e in events && e.ReadDataset? :: (e.schema, e.dataset)
  }

  /** `deactivate_missing` */
  function Sweep(db: Db, connection: Id, schemas: set<string>, datasets: set<(Id, string)>): Db {
    db.(schemas := map k | k in db.schemas ::
          if k.0 == connection && k.1 !in schemas then db.schemas[k].(active := false) else db.schemas[k],
        datasets := map k | k in db.datasets ::
          if k.0 in IdsOf(db, connection) && k !in datasets then db.datasets[k].(active := false) else db.datasets[k])
  }

  /** The schema ids of a connection. */
  function IdsOf(db: Db, connection: Id): set<Id> {
    set k | k in db.schemas && k.0 == connection :: db.schemas[k].id
  }

  /** The keys under which reads were stored. */
  function KeysRead(db: Db, connection: Id, events: seq<Event>): set<(Id, string)> {
    set e | e in events && e.ReadDataset? && (connection, e.schema) in db.schemas ::
      (db.schemas[(connection, e.schema)].id, e.dataset)
  }

  /** A completed run of `run_discovery`. */
  function Discover(db: Db, connection: Id, listing: seq<SchemaListing>): Db {
    var events := Events(listing);
    var folded := Fold(db, connection, events);
    Sweep(folded, connection, SchemasSeen(events), KeysRead(folded, connection, events))
  }

  // --- identity --------------------------------------------------------------------------------------

  /** Ids are below the next one, and no two schemas and no two datasets share one. */
  ghost predicate IdsAreUnique(db: Db) {
    && (forall k :: k in db.schemas ==> db.schemas[k].id < db.nextId)
    && (forall k :: k in db.datasets ==> db.datasets[k].id < db.nextId)
    && (forall k :: k in db.columns ==> db.columns[k].id < db.nextId)
    && (forall k, l :: k in db.schemas && l in db.schemas && db.schemas[k].id == db.schemas[l].id ==> k == l)
    && (forall k, l :: k in db.datasets && l in db.datasets && db.datasets[k].id == db.datasets[l].id ==> k == l)
  }

  /** Every row is still there under its name, with the identity it had. */
  ghost predicate KeepsRows(a: Db, b: Db) {
    && a.nextId <= b.nextId
    && (forall k :: k in a.schemas ==> k in b.schemas && b.schemas[k].id == a.schemas[k].id)
    && (forall k :: k in a.datasets ==> k in b.datasets && b.datasets[k].id == a.datasets[k].id)
    && (forall k :: k in a.columns ==> k in b.columns && b.columns[k].id == a.columns[k].id)
  }

  lemma KeepsRowsTransitive(a: Db, b: Db, c: Db)
    requires KeepsRows(a, b) && KeepsRows(b, c)
    ensures KeepsRows(a, c)
  {
  }

  /** What storing columns changes, and what it does not. */
  ghost predicate ColumnsPut(a: Db, b: Db, dataset: Id, names: set<string>) {
    && b.schemas == a.schemas && b.datasets == a.datasets && b.nextId >= a.nextId
    && (forall k :: k in b.columns <==> k in a.columns || (k.0 == dataset && k.1 in names))
    && (forall k :: k in a.columns ==> b.columns[k].id == a.columns[k].id)
    && (forall k :: k in a.columns && !(k.0 == dataset && k.1 in names) ==> b.columns[k] == a.columns[k])
    && (forall n :: n in names ==> (dataset, n) in b.columns && b.columns[(dataset, n)].active)
  }

  lemma ColumnsPutOneMore(a: Db, b: Db, dataset: Id, names: set<string>, info: ColumnInfo)
    requires ColumnsPut(a, b, dataset, names)
    ensures ColumnsPut(a, PutColumn(b, dataset, info), dataset, names + {info.name})
  {
  }

  lemma {:induction false} PutColumnsFrame(db: Db, dataset: Id, infos: seq<ColumnInfo>)
    ensures ColumnsPut(db, PutColumns(db, dataset, infos), dataset, Names(infos))
  {
    if infos != [] {
      var before, last := infos[..|infos| - 1], infos[|infos| - 1];
      PutColumnsFrame(db, dataset, before);
      assert infos == before + [last];
      assert Names(infos) == Names(before) + {last.name};
      hide ColumnsPut, Names, PutColumn;
      ColumnsPutOneMore(db, PutColumns(db, dataset, before), dataset, Names(before), last);
    }
  }

  lemma {:induction false} PutColumnsIds(db: Db, dataset: Id, infos: seq<ColumnInfo>)
    requires IdsAreUnique(db)
    ensures IdsAreUnique(PutColumns(db, dataset, infos))
  {
    if infos != [] { PutColumnsIds(db, dataset, infos[..|infos| - 1]); }
  }

  /** The last report of a column is what counts. */
  ghost predicate IsLastReport(infos: seq<ColumnInfo>, i: int) {
    0 <= i < |infos| && forall j :: i < j < |infos| ==> infos[j].name != infos[i].name
  }

  /** Every reported column is active, with the ordinal and the type reported last. */
  ghost predicate AreReported(db: Db, dataset: Id, infos: seq<ColumnInfo>) {
    forall i :: IsLastReport(infos, i) ==> HasReport(db, dataset, infos[i])
  }

  ghost predicate HasReport(db: Db, dataset: Id, info: ColumnInfo) {
    && (dataset, info.name) in db.columns
    && (var row := db.columns[(dataset, info.name)];
        row.ordinal == info.ordinal && row.dataType == info.dataType && row.active)
  }

  lemma {:induction false} PutColumnsReports(db: Db, dataset: Id, infos: seq<ColumnInfo>)
    ensures AreReported(PutColumns(db, dataset, infos), dataset, infos)
    decreases |infos|
  {
    if infos != [] {
      var n := |infos| - 1;
      var before := PutColumns(db, dataset, infos[..n]);
      PutColumnsReports(db, dataset, infos[..n]);
      forall i | IsLastReport(infos, i) ensures HasReport(PutColumn(before, dataset, infos[n]), dataset, infos[i]) {
        if i < n {
          assert IsLastReport(infos[..n], i);
          assert HasReport(before, dataset, infos[..n][i]) && infos[..n][i] == infos[i];
        }
      }
    }
  }

  lemma ReconcileReports(db: Db, dataset: Id, infos: seq<ColumnInfo>)
    requires AreReported(db, dataset, infos)
    ensures AreReported(Reconcile(db, dataset, Names(infos)), dataset, infos)
  {
    forall i | IsLastReport(infos, i)
      ensures HasReport(Reconcile(db, dataset, Names(infos)), dataset, infos[i])
    {
      assert infos[i] in infos;
      assert HasReport(db, dataset, infos[i]);
    }
  }

  /** What one successful read stores. */
  ghost predicate Stored(db: Db, schema: Id, name: string, read: Read) {
    var key := (schema, name);
    && key in db.datasets && db.datasets[key].active
    && db.datasets[key].objectType == read.objectType && db.datasets[key].rowCount == read.rowCount
    && ActiveColumns(db, db.datasets[key].id) == Names(read.columns)
    && db.datasets[key].columnCount == |Names(read.columns)|
    && AreReported(db, db.datasets[key].id, read.columns)
  }

  /** Only this dataset's row and columns changed, and every column it reported is there. */
  ghost predicate OnlyDataset(a: Db, b: Db, key: (Id, string), names: set<string>) {
    && b.schemas == a.schemas && key in b.datasets
    && (forall k :: k in b.datasets <==> k in a.datasets || k == key)
    && (forall k :: k in a.datasets && k != key ==> b.datasets[k] == a.datasets[k])
    && (forall k :: k in b.columns <==> k in a.columns || (k.0 == b.datasets[key].id && k.1 in names))
    && (forall k :: k in a.columns && k.0 != b.datasets[key].id ==> b.columns[k] == a.columns[k])
  }

  /** One step of an upsert: identities kept, nothing else touched. */
  ghost predicate Extends(a: Db, b: Db, key: (Id, string), names: set<string>) {
    IdsAreUnique(b) && KeepsRows(a, b) && OnlyDataset(a, b, key, names)
  }

  lemma ExtendsTransitive(a: Db, b: Db, c: Db, key: (Id, string), m: set<string>, n: set<string>)
    requires Extends(a, b, key, m) && Extends(b, c, key, n)
    ensures Extends(a, c, key, m + n)
  {
    hide IdsAreUnique;
    KeepsRowsTransitive(a, b, c);
    OnlyDatasetTransitive(a, b, c, key, m, n);
  }

  lemma OnlyDatasetTransitive(a: Db, b: Db, c: Db, key: (Id, string), m: set<string>, n: set<string>)
    requires KeepsRows(b, c) && OnlyDataset(a, b, key, m) && OnlyDataset(b, c, key, n)
    ensures OnlyDataset(a, c, key, m + n)
  {
  }

  ghost predicate RowHas(db: Db, key: (Id, string), read: Read) {
    && key in db.datasets && db.datasets[key].active
    && db.datasets[key].objectType == read.objectType && db.datasets[key].rowCount == read.rowCount
  }

  lemma PutDatasetIds(db: Db, schema: Id, name: string, read: Read)
    requires IdsAreUnique(db)
    ensures IdsAreUnique(PutDataset(db, schema, name, read))
  {
  }

  lemma PutDatasetExtends(db: Db, schema: Id, name: string, read: Read)
    requires IdsAreUnique(db)
    ensures Extends(db, PutDataset(db, schema, name, read), (schema, name), {})
    ensures IdsAreUnique(PutDataset(db, schema, name, read))
    ensures RowHas(PutDataset(db, schema, name, read), (schema, name), read)
  {
    PutDatasetIds(db, schema, name, read);
    PutDatasetRows(db, schema, name, read);
    hide IdsAreUnique, KeepsRows, PutDataset, OnlyDataset, RowHas;
  }

  lemma PutDatasetRows(db: Db, schema: Id, name: string, read: Read)
    ensures var r := PutDataset(db, schema, name, read);
      KeepsRows(db, r) && RowHas(r, (schema, name), read) && OnlyDataset(db, r, (schema, name), {})
  {
  }

  lemma PutColumnsExtends(db: Db, key: (Id, string), infos: seq<ColumnInfo>)
    requires IdsAreUnique(db) && key in db.datasets
    ensures Extends(db, PutColumns(db, db.datasets[key].id, infos), key, Names(infos))
  {
    var id := db.datasets[key].id;
    PutColumnsFrame(db, id, infos);
    PutColumnsIds(db, id, infos);
    hide PutColumns, Names, IdsAreUnique, ColumnsPut, KeepsRows, OnlyDataset;
    ColumnsPutKeeps(db, PutColumns(db, id, infos), id, Names(infos));
    ColumnsPutOnly(db, PutColumns(db, id, infos), key, Names(infos));
  }

  lemma ColumnsPutKeeps(a: Db, b: Db, dataset: Id, names: set<string>)
    requires ColumnsPut(a, b, dataset, names)
    ensures KeepsRows(a, b)
  {
  }

  lemma ColumnsPutOnly(a: Db, b: Db, key: (Id, string), names: set<string>)
    requires key in a.datasets && ColumnsPut(a, b, a.datasets[key].id, names)
    ensures OnlyDataset(a, b, key, names)
  {
  }

  lemma ReconcileExtends(db: Db, key: (Id, string), names: set<string>)
    requires IdsAreUnique(db) && key in db.datasets
    requires forall n :: n in names ==>
      (db.datasets[key].id, n) in db.columns && db.columns[(db.datasets[key].id, n)].active
    ensures var r := Reconcile(db, db.datasets[key].id, names);
      Extends(db, r, key, {}) && r.datasets == db.datasets && ActiveColumns(r, db.datasets[key].id) == names
  {
    var id := db.datasets[key].id;
    var r := Reconcile(db, id, names);
    assert Extends(db, r, key, {});
    forall n ensures n in ActiveColumns(r, id) <==> n in names {
      if n in ActiveColumns(r, id) { assert (id, n) in r.columns; }
    }
  }

  lemma RecountExtends(db: Db, key: (Id, string), read: Read)
    requires IdsAreUnique(db) && RowHas(db, key, read)
    requires ActiveColumns(db, db.datasets[key].id) == Names(read.columns)
    requires AreReported(db, db.datasets[key].id, read.columns)
    ensures Extends(db, Recount(db, key), key, {})
    ensures Stored(Recount(db, key), key.0, key.1, read)
  {
    hide Names;
    assert ActiveColumns(Recount(db, key), db.datasets[key].id) == ActiveColumns(db, db.datasets[key].id);
  }

  lemma UpsertDatasetStores(db: Db, schema: Id, name: string, read: Read)
    requires IdsAreUnique(db)
    ensures var r := UpsertDataset(db, schema, name, read);
      Extends(db, r, (schema, name), Names(read.columns)) && Stored(r, schema, name, read)
  {
    hide PutColumns, Names, Extends, Stored, IdsAreUnique, RowHas, Recount, Reconcile, ActiveColumns, KeepsRows,
         OnlyDataset, ColumnsPut, PutDataset;
    var key, names, put := (schema, name), Names(read.columns), PutDataset(db, schema, name, read);
    PutDatasetExtends(db, schema, name, read);
    FillAndCount(put, key, read);
    assert {} + names == names;
    ExtendsTransitive(db, put, UpsertDataset(db, schema, name, read), key, {}, names);
  }

  lemma FillAndCount(put: Db, key: (Id, string), read: Read)
    requires IdsAreUnique(put) && RowHas(put, key, read)
    ensures var id, names := put.datasets[key].id, Names(read.columns);
      var reconciled := Reconcile(PutColumns(put, id, read.columns), id, names);
      && key in reconciled.datasets
      && Extends(put, Recount(reconciled, key), key, names) && Stored(Recount(reconciled, key), key.0, key.1, read)
  {
    var id, names := put.datasets[key].id, Names(read.columns);
    var filled := PutColumns(put, id, read.columns);
    PutColumnsFrame(put, id, read.columns);
    PutColumnsExtends(put, key, read.columns);
    ReconcileExtends(filled, key, names);
    PutColumnsReports(put, id, read.columns);
    ReconcileReports(filled, id, read.columns);
    hide Names, PutColumns, AreReported, ColumnsPut, Reconcile, ActiveColumns, OnlyDataset, KeepsRows, Stored;
    var reconciled := Reconcile(filled, id, names);
    RecountExtends(reconciled, key, read);
    hide Recount, Extends, IdsAreUnique, RowHas;
    ExtendsTransitive(put, filled, reconciled, key, names, {});
    ExtendsTransitive(put, reconciled, Recount(reconciled, key), key, names + {}, {});
    assert names + {} + {} == names;
  }
}
