/** The services of a discovery run: upserts and sweeps on the tables, row by row. */
module CatalogueService {
  import opened Collections
  import opened Catalogue
  import opened CatalogueMirror

  class DiscoveryService {
    var schemas: map<(Id, string), SchemaRow>
    var datasets: map<(Id, string), DatasetRow>
    var columns: map<(Id, string), ColumnRow>
    var nextId: Id

    /** The tables as one value. */
    ghost function Tables(): Db
      reads this
    {
      Db(schemas, datasets, columns, nextId)
    }

    constructor ()
      ensures IdsAreUnique(Tables())
    {
      schemas, datasets, columns, nextId := map[], map[], map[], 0;
    }

    method UpsertSchemaRow(connection: Id, name: string) returns (id: Id)
      modifies this
      ensures Tables() == UpsertSchema(old(Tables()), connection, name)
      ensures id == schemas[(connection, name)].id
    {
      var key := (connection, name);
      if key !in schemas {
        schemas, nextId := schemas[key := SchemaRow(nextId, true)], nextId + 1;
      } else {
        schemas := schemas[key := schemas[key].(active := true)];
      }
      id := schemas[key].id;
    }

    /** The column loop: each reported column is found or created, and remembered as seen. */
    method StoreColumns(dataset: Id, infos: seq<ColumnInfo>) returns (seen: set<string>)
      modifies this`columns, this`nextId
      ensures Tables() == PutColumns(old(Tables()), dataset, infos) && seen == Names(infos)
    {
      seen := {};
      for i := 0 to |infos|
        invariant Tables() == PutColumns(old(Tables()), dataset, infos[..i]) && seen == Names(infos[..i])
      {
        assert infos[..i + 1] == infos[..i] + [infos[i]];
        assert infos[..i + 1][..i] == infos[..i];
        var info := infos[i];
        seen := seen + {info.name};
        var key := (dataset, info.name);
        if key !in columns {
          columns, nextId := columns[key := ColumnRow(nextId, info.ordinal, info.dataType, true)], nextId + 1;
        } else {
          columns := columns[key := ColumnRow(columns[key].id, info.ordinal, info.dataType, true)];
        }
      }
      assert infos[..|infos|] == infos;
    }

    /** The previously active columns are visited one by one. */
    method DeactivateColumns(dataset: Id, seen: set<string>)
      modifies this`columns
      ensures Tables() == Reconcile(old(Tables()), dataset, seen)
    {
      var rest := set k | k in columns && k.0 == dataset && columns[k].active;
      ghost var all := rest;
      while rest != {}
        invariant rest <= all && columns.Keys == old(columns).Keys
        invariant forall k :: k in columns ==>
          columns[k] == if k in all - rest && k.1 !in seen then old(columns)[k].(active := false) else old(columns)[k]
      {
        var k :| k in rest;
        if k.1 !in seen { columns := columns[k := columns[k].(active := false)]; }
        rest := rest - {k};
      }
    }

    method UpsertDatasetRow(schema: Id, name: string, read: Read)
      modifies this
      ensures Tables() == UpsertDataset(old(Tables()), schema, name, read)
    {
      var key := (schema, name);
      if key !in datasets {
        datasets, nextId := datasets[key := DatasetRow(nextId, read.objectType, true, read.rowCount, 0)], nextId + 1;
      } else {
        var row := datasets[key].(objectType := read.objectType, active := true, rowCount := read.rowCount);
        datasets := datasets[key := row];
      }
      ghost var put := Tables();
      assert put == PutDataset(old(Tables()), schema, name, read);
      var id := datasets[key].id;
      PutColumnsFrame(put, id, read.columns);
      var seen := StoreColumns(id, read.columns);
      hide PutColumns, Names, PutDataset;
      DeactivateColumns(id, seen);
      var active := set k | k in columns && k.0 == id && columns[k].active :: k.1;
      assert active == ActiveColumns(Tables(), id);
      hide ActiveColumns, Reconcile;
      datasets := datasets[key := datasets[key].(columnCount := |active|)];
    }

    /** Schemas, then datasets, that this run did not find. */
    method DeactivateMissing(connection: Id, names: set<string>, keys: set<(Id, string)>)
      modifies this`schemas, this`datasets
      ensures Tables() == Sweep(old(Tables()), connection, names, keys)
    {
      var rest := set k | k in schemas && k.0 == connection && schemas[k].active;
      ghost var all := rest;
      while rest != {}
        invariant rest <= all && schemas.Keys == old(schemas).Keys && datasets == old(datasets)
        invariant forall k :: k in schemas ==>
          schemas[k] == if k in all - rest && k.1 !in names then old(schemas)[k].(active := false) else old(schemas)[k]
      {
        var k :| k in rest;
        if k.1 !in names { schemas := schemas[k := schemas[k].(active := false)]; }
        rest := rest - {k};
      }
      ghost var before := old(Tables());
      SweptSchemaTable(before, connection, names, schemas);
      var ids := set k | k in schemas && k.0 == connection :: schemas[k].id;
      assert ids == IdsOf(before, connection);
      hide IdsOf;
      DeactivateDatasets(ids, keys);
    }

    /** One schema; when its datasets cannot be listed the run goes on. */
    method ReadSchema(connection: Id, l: SchemaListing, names: set<string>, keys: set<(Id, string)>,
                      cancel: nat -> bool, poll: nat, ghost before: Db, ghost done: seq<Event>)
      returns (allNames: set<string>, allKeys: set<(Id, string)>, next: nat, cancelled: bool, ghost seen: seq<Event>)
      requires Underway(before, connection, done, Tables(), names, keys)
      modifies this
      ensures Underway(before, connection, seen, Tables(), allNames, allKeys) && seen <= done + SchemaEvents(l)
      ensures if cancelled then cancel(next) else seen == done + SchemaEvents(l)
    {
      hide Underway, UpsertSchema, SchemasSeen;
      RunSeesSchema(before, connection, done, Tables(), names, keys, l.name);
      var id := UpsertSchemaRow(connection, l.name);
      seen := done + [SeenSchema(l.name)];
      allNames, allKeys, next, cancelled := names + {l.name}, keys, poll, false;
      if l.datasets.None? {
        assert done + SchemaEvents(l) == seen;
      } else {
        SchemaRowIsThere(before, connection, seen, Tables(), allNames, allKeys, l.name);
        assert seen + Reads(l.name, l.datasets.value) == done + SchemaEvents(l);
        allKeys, next, cancelled, seen :=
          ReadDatasets(connection, l.name, id, l.datasets.value, allNames, allKeys, cancel, poll, before, seen);
      }
    }

    /** The datasets of one schema: cancellation is polled before each, and a read that fails is skipped. */
    method ReadDatasets(connection: Id, schema: string, id: Id, ds: seq<DatasetListing>, names: set<string>,
                        keys: set<(Id, string)>, cancel: nat -> bool, poll: nat, ghost before: Db,
                        ghost done: seq<Event>)
      returns (allKeys: set<(Id, string)>, next: nat, cancelled: bool, ghost seen: seq<Event>)
      requires Underway(before, connection, done, Tables(), names, keys)
      requires (connection, schema) in schemas && schemas[(connection, schema)].id == id
      modifies this
      ensures Underway(before, connection, seen, Tables(), names, allKeys) && seen <= done + Reads(schema, ds)
      ensures if cancelled then cancel(next) else seen == done + Reads(schema, ds)
    {
      hide Underway, UpsertDataset;
      ghost var all := done + Reads(schema, ds);
      seen, allKeys, next := done, keys, poll;
      for i := 0 to |ds|
        invariant Underway(before, connection, seen, Tables(), names, allKeys)
        invariant (connection, schema) in schemas && schemas[(connection, schema)].id == id
        invariant seen + Reads(schema, ds[i..]) == all
      {
        if cancel(next) { return allKeys, next, true, seen; }
        next := next + 1;
        NextRead(schema, ds, i);
        hide Reads;
        if ds[i].read.Some? {
          var read := ds[i].read.value;
          RunReadsDataset(before, connection, seen, Tables(), names, allKeys, schema, id, ds[i].name, read);
          UpsertDatasetRow(id, ds[i].name, read);
          allKeys := allKeys + {(id, ds[i].name)};
          seen := seen + [ReadDataset(schema, ds[i].name, read)];
        }
      }
      assert seen == all;
      cancelled := false;
    }

    /** All listed schemas, cancellation polled before each. */
    method ReadSchemas(connection: Id, listing: seq<SchemaListing>, cancel: nat -> bool, ghost before: Db)
      returns (names: set<string>, keys: set<(Id, string)>, next: nat, cancelled: bool, ghost seen: seq<Event>)
      requires Underway(before, connection, [], Tables(), {}, {})
      modifies this
      ensures Underway(before, connection, seen, Tables(), names, keys) && seen <= Events(listing)
      ensures if cancelled then cancel(next) else seen == Events(listing)
    {
      hide Underway, SchemaEvents, Events;
      names, keys, next, seen := {}, {}, 0, [];
      ghost var all := Events(listing);
      assert [] + all == all && listing[0..] == listing;
      for i := 0 to |listing|
        invariant Underway(before, connection, seen, Tables(), names, keys)
        invariant seen + Events(listing[i..]) == all && seen <= all
      {
        if cancel(next) { return names, keys, next, true, seen; }
        NextSchema(listing, i);
        ghost var done, part := seen, SchemaEvents(listing[i]);
        Regroup(done, part, Events(listing[i + 1..]), all);
        names, keys, next, cancelled, seen :=
          ReadSchema(connection, listing[i], names, keys, cancel, next + 1, before, seen);
        PrefixOfPrefix(seen, done + part, all);
        if cancelled { return names, keys, next, true, seen; }
      }
      NoMoreSchemas(listing);
      cancelled := false;
    }

    /**
      `run_discovery` on a listing. The n-th poll for a cancellation answers `cancel(n)`; a cancelled run keeps what
      it has stored and returns before the final sweep.
    */
    method RunDiscovery(connection: Id, listing: seq<SchemaListing>, cancel: nat -> bool)
      returns (completed: bool, ghost seen: seq<Event>)
      requires IdsAreUnique(Tables())
      modifies this
      ensures (forall n :: !cancel(n)) ==> completed
      ensures completed ==> Tables() == Discover(old(Tables()), connection, listing)
      ensures completed ==> Mirrors(connection, Events(listing), Tables())
      ensures !completed ==> seen <= Events(listing) && Tables() == Fold(old(Tables()), connection, seen)
      ensures IdsAreUnique(Tables()) && KeepsRows(old(Tables()), Tables())
    {
      hide Underway, IdsAreUnique, Mirrors, Discover, Sweep, KeepsRows, ForeignRowsKept, Events, Fold;
      ghost var before := Tables();
      RunMirrorsTheSource(before, connection, listing);
      RunStarts(before, connection);
      var names: set<string>, keys: set<(Id, string)>, next: nat, cancelled: bool;
      names, keys, next, cancelled, seen := ReadSchemas(connection, listing, cancel, before);
      RunStops(before, connection, seen, Tables(), names, keys);
      if cancelled { return false, seen; }
      RunEnds(before, connection, listing, Tables(), names, keys);
      DeactivateMissing(connection, names, keys);
      completed := true;
    }

    method DeactivateDatasets(ids: set<Id>, keys: set<(Id, string)>)
      modifies this`datasets
      ensures datasets == map k | k in old(datasets) ::
        if k.0 in ids && k !in keys then old(datasets)[k].(active := false) else old(datasets)[k]
    {
      var rest := set k | k in datasets && k.0 in ids && datasets[k].active;
      ghost var all := rest;
      while rest != {}
        invariant rest <= all && datasets.Keys == old(datasets).Keys
        invariant forall k :: k in datasets ==>
          datasets[k] == if k in all - rest && k !in keys then old(datasets)[k].(active := false) else old(datasets)[k]
      {
        var k :| k in rest;
        if k !in keys { datasets := datasets[k := datasets[k].(active := false)]; }
        rest := rest - {k};
      }
    }
  }

  /** Where a run is: the tables are the fold of what was done, and the two sets remember it. */
  ghost predicate Underway(before: Db, connection: Id, done: seq<Event>, db: Db, names: set<string>,
                           keys: set<(Id, string)>) {
    && db == Fold(before, connection, done) && Folded(before, connection, done, db)
    && names == SchemasSeen(done) && keys == KeysRead(db, connection, done)
  }

  lemma RunSeesSchema(before: Db, connection: Id, done: seq<Event>, db: Db, names: set<string>, keys: set<(Id, string)>,
                      name: string)
    requires Underway(before, connection, done, db, names, keys)
    ensures Underway(before, connection, done + [SeenSchema(name)], UpsertSchema(db, connection, name),
                     names + {name}, keys)
    ensures name in SchemasSeen(done + [SeenSchema(name)])
  {
    var e := SeenSchema(name);
    assert (done + [e])[..|done|] == done;
    StoredReadsHaveRows(connection, done, db);
    SchemaStep(before, connection, done, db, name);
    SeenOneMore(done, e);
    UpsertSchemaKeeps(db, connection, name);
    hide Folded, UpsertSchema, KeepsRows;
    SameReads(connection, done, db, done + [e], UpsertSchema(db, connection, name));
  }

  lemma RunReadsDataset(before: Db, connection: Id, done: seq<Event>, db: Db, names: set<string>,
                        keys: set<(Id, string)>, schema: string, id: Id, dataset: string, read: Read)
    requires Underway(before, connection, done, db, names, keys)
    requires (connection, schema) in db.schemas && db.schemas[(connection, schema)].id == id
    ensures var e, r := ReadDataset(schema, dataset, read), UpsertDataset(db, id, dataset, read);
      && Underway(before, connection, done + [e], r, names, keys + {(id, dataset)})
      && (connection, schema) in r.schemas && r.schemas[(connection, schema)].id == id
  {
    hide UpsertDataset, Extends, Stored, Names, SchemasFollow, ReadsAreStored, DatasetsFollow, ColumnsFollow,
         IdsAreUnique, KeepsRows, OnlyDataset, KeysRead, SchemasSeen, DatasetsRead, IsReported;
    var e, r := ReadDataset(schema, dataset, read), UpsertDataset(db, id, dataset, read);
    assert (done + [e])[..|done|] == done;
    StoredReadsHaveRows(connection, done, db);
    UpsertDatasetStores(db, id, dataset, read);
    UpsertKeepsSchemas(db, id, dataset, read);
    SeenOneMore(done, e);
    DatasetStep(before, connection, done, db, schema, dataset, read);
    hide Folded, ReadsHaveRows;
    MoreReads(connection, done, db, r, e);
    assert names + {} == names;
  }

  lemma UpsertKeepsSchemas(db: Db, id: Id, dataset: string, read: Read)
    requires IdsAreUnique(db)
    ensures UpsertDataset(db, id, dataset, read).schemas == db.schemas
  {
    UpsertDatasetStores(db, id, dataset, read);
    hide UpsertDataset, IdsAreUnique, KeepsRows, Stored;
  }

  lemma RunStarts(before: Db, connection: Id)
    requires IdsAreUnique(before)
    ensures Underway(before, connection, [], before, {}, {})
  {
    FoldKeeps(before, connection, []);
    hide Folded;
  }

  lemma NextSchema(listing: seq<SchemaListing>, i: nat)
    requires i < |listing|
    ensures Events(listing[i..]) == SchemaEvents(listing[i]) + Events(listing[i + 1..])
  {
    assert listing[i..][1..] == listing[i + 1..];
  }

  lemma NoMoreSchemas(listing: seq<SchemaListing>)
    ensures Events(listing[|listing|..]) == []
  {
  }

  lemma Regroup(a: seq<Event>, b: seq<Event>, c: seq<Event>, all: seq<Event>)
    requires a + (b + c) == all
    ensures a + b + c == all && a + b <= all
  {
  }

  lemma PrefixOfPrefix(a: seq<Event>, b: seq<Event>, c: seq<Event>)
    requires a <= b <= c
    ensures a <= c
  {
  }

  lemma NextRead(schema: string, ds: seq<DatasetListing>, i: nat)
    requires i < |ds|
    ensures Reads(schema, ds[i..])
         == (if ds[i].read.None? then [] else [ReadDataset(schema, ds[i].name, ds[i].read.value)])
            + Reads(schema, ds[i + 1..])
  {
    assert ds[i..][1..] == ds[i + 1..];
  }

  lemma SchemaRowIsThere(before: Db, connection: Id, done: seq<Event>, db: Db, names: set<string>,
                         keys: set<(Id, string)>, name: string)
    requires Underway(before, connection, done, db, names, keys) && name in SchemasSeen(done)
    ensures (connection, name) in db.schemas
  {
  }

  lemma RunStops(before: Db, connection: Id, done: seq<Event>, db: Db, names: set<string>, keys: set<(Id, string)>)
    requires Underway(before, connection, done, db, names, keys)
    ensures db == Fold(before, connection, done) && IdsAreUnique(db) && KeepsRows(before, db)
  {
  }

  lemma RunEnds(before: Db, connection: Id, listing: seq<SchemaListing>, db: Db, names: set<string>,
                keys: set<(Id, string)>)
    requires Underway(before, connection, Events(listing), db, names, keys)
    ensures Sweep(db, connection, names, keys) == Discover(before, connection, listing)
  {
    hide Folded, Sweep;
  }

  lemma SweptSchemaTable(before: Db, connection: Id, names: set<string>, schemas: map<(Id, string), SchemaRow>)
    requires schemas.Keys == before.schemas.Keys
    requires forall k :: k in schemas ==>
      schemas[k] == if k.0 == connection && before.schemas[k].active && k.1 !in names
                    then before.schemas[k].(active := false) else before.schemas[k]
    ensures schemas == Sweep(before, connection, names, {}).schemas
    ensures IdsOf(before.(schemas := schemas), connection) == IdsOf(before, connection)
  {
  }
}
