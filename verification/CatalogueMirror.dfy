/** After a completed run the catalogue mirrors the source, identities are kept, and a second run changes nothing. */
module CatalogueMirror {
  import opened Collections
  import opened Catalogue

  // --- what the events of a run say -------------------------------------------------------

  /** The last successful read of a dataset. */
  function LastRead(events: seq<Event>, schema: string, dataset: string): Option<Read> {
    if events == [] then None
    else
      var e := events[|events| - 1];
      if e.ReadDataset? && e.schema == schema && e.dataset == dataset then Some(e.read)
      else LastRead(events[..|events| - 1], schema, dataset)
  }

  lemma {:induction false} LastReadIffRead(events: seq<Event>, schema: string, dataset: string)
    ensures LastRead(events, schema, dataset).Some? <==> (schema, dataset) in DatasetsRead(events)
  {
    if events != [] {
      var before, e := events[..|events| - 1], events[|events| - 1];
      assert events == before + [e];
      LastReadIffRead(before, schema, dataset);
      if (schema, dataset) in DatasetsRead(before) {
        var x :| x in before && x.ReadDataset? && (x.schema, x.dataset) == (schema, dataset);
        assert x in events;
      }
    }
  }

  lemma SeenOneMore(events: seq<Event>, e: Event)
    ensures SchemasSeen(events + [e]) == SchemasSeen(events) + (if e.SeenSchema? then {e.schema} else {})
    ensures DatasetsRead(events + [e])
      == DatasetsRead(events) + (if e.ReadDataset? then {(e.schema, e.dataset)} else {})
  {
  }

  /** Every read comes after its schema was seen. */
  ghost predicate Ordered(events: seq<Event>) {
    events == []
    || (var before, e := events[..|events| - 1], events[|events| - 1];
        Ordered(before) && (e.ReadDataset? ==> e.schema in SchemasSeen(before)))
  }

  lemma OrderedOneMore(events: seq<Event>, e: Event)
    requires Ordered(events) && (e.ReadDataset? ==> e.schema in SchemasSeen(events))
    ensures Ordered(events + [e]) && e.schema in SchemasSeen(events + [e])
  {
    SeenOneMore(events, e);
    hide SchemasSeen;
    assert (events + [e])[..|events|] == events;
  }

  lemma {:induction false} OrderedReads(events: seq<Event>, schema: string, datasets: seq<DatasetListing>)
    requires Ordered(events) && schema in SchemasSeen(events)
    ensures Ordered(events + Reads(schema, datasets)) && schema in SchemasSeen(events + Reads(schema, datasets))
    decreases |datasets|
  {
    hide Ordered, SchemasSeen, DatasetsRead;
    if datasets == [] {
      assert events + [] == events;
    } else if datasets[0].read.None? {
      OrderedReads(events, schema, datasets[1..]);
      assert Reads(schema, datasets) == Reads(schema, datasets[1..]);
    } else {
      var e := ReadDataset(schema, datasets[0].name, datasets[0].read.value);
      var rest := Reads(schema, datasets[1..]);
      assert Reads(schema, datasets) == [e] + rest;
      hide Reads;
      OrderedOneMore(events, e);
      OrderedReads(events + [e], schema, datasets[1..]);
      assert events + ([e] + rest) == events + [e] + rest;
    }
  }

  /** The events of one schema. */
  function SchemaEvents(l: SchemaListing): seq<Event> {
    [SeenSchema(l.name)] + if l.datasets.None? then [] else Reads(l.name, l.datasets.value)
  }

  lemma {:induction false} EventsAreOrdered(events: seq<Event>, listing: seq<SchemaListing>)
    requires Ordered(events)
    ensures Ordered(events + Events(listing))
    decreases |listing|
  {
    hide Ordered, SchemasSeen, DatasetsRead, Reads;
    if listing == [] {
      assert events + [] == events;
    } else {
      var l, rest := listing[0], Events(listing[1..]);
      assert Events(listing) == SchemaEvents(l) + rest;
      SchemaIsOrdered(events, l);
      hide Events, SchemaEvents;
      EventsAreOrdered(events + SchemaEvents(l), listing[1..]);
      assert events + (SchemaEvents(l) + rest) == events + SchemaEvents(l) + rest;
    }
  }

  lemma SchemaIsOrdered(events: seq<Event>, l: SchemaListing)
    requires Ordered(events)
    ensures Ordered(events + SchemaEvents(l))
  {
    hide Ordered, SchemasSeen, Reads;
    var seen := SeenSchema(l.name);
    OrderedOneMore(events, seen);
    if l.datasets.Some? {
      OrderedReads(events + [seen], l.name, l.datasets.value);
      assert events + SchemaEvents(l) == events + [seen] + Reads(l.name, l.datasets.value);
    } else {
      assert events + SchemaEvents(l) == events + [seen];
    }
  }

  lemma {:induction false} ReadsMembers(schema: string, datasets: seq<DatasetListing>, e: Event)
    ensures e in Reads(schema, datasets) <==>
      e.ReadDataset? && e.schema == schema && DatasetListing(e.dataset, Some(e.read)) in datasets
  {
    if datasets != [] {
      ReadsMembers(schema, datasets[1..], e);
      assert datasets == [datasets[0]] + datasets[1..];
    }
  }

  /** A run sees exactly the listed schemas and reads exactly the datasets that answered. */
  lemma {:induction false} EventsMembers(listing: seq<SchemaListing>, e: Event)
    ensures e in Events(listing) <==>
      exists l :: l in listing && l.name == e.schema
        && (e.ReadDataset? ==> l.datasets.Some? && DatasetListing(e.dataset, Some(e.read)) in l.datasets.value)
  {
    if listing != [] {
      EventsMembers(listing[1..], e);
      assert listing == [listing[0]] + listing[1..];
      if listing[0].datasets.Some? { ReadsMembers(listing[0].name, listing[0].datasets.value, e); }
    }
  }

  // --- what a fold keeps --------------------------------------------------------------------

  ghost predicate SchemasFollow(before: Db, connection: Id, seen: set<string>, db: Db) {
    && (forall n :: n in seen ==> (connection, n) in db.schemas && db.schemas[(connection, n)].active)
    && (forall k :: k in db.schemas ==>
          (k in before.schemas && db.schemas[k] == before.schemas[k]) || (k.0 == connection && k.1 in seen))
  }

  /** The last read of every dataset is what is stored. */
  ghost predicate ReadsAreStored(connection: Id, events: seq<Event>, db: Db) {
    forall s, d :: LastRead(events, s, d).Some? ==>
      (connection, s) in db.schemas && Stored(db, db.schemas[(connection, s)].id, d, LastRead(events, s, d).value)
  }

  /** Rows of other datasets are as they were. */
  ghost predicate DatasetsFollow(before: Db, connection: Id, events: seq<Event>, db: Db) {
    forall k :: k in db.datasets ==>
      (k in before.datasets && db.datasets[k] == before.datasets[k]) || k in KeysRead(db, connection, events)
  }

  ghost predicate IsReadId(connection: Id, events: seq<Event>, db: Db, id: Id) {
    exists k :: k in KeysRead(db, connection, events) && k in db.datasets && db.datasets[k].id == id
  }

  /** The column was reported by some read of its dataset. */
  ghost predicate IsReported(connection: Id, events: seq<Event>, db: Db, k: (Id, string)) {
    exists e :: e in events && e.ReadDataset? && ReportedBy(connection, e, db, k)
  }

  ghost predicate ReportedBy(connection: Id, e: Event, db: Db, k: (Id, string)) {
    && e.ReadDataset? && k.1 in Names(e.read.columns)
    && (connection, e.schema) in db.schemas
    && var key := (db.schemas[(connection, e.schema)].id, e.dataset);
       key in db.datasets && db.datasets[key].id == k.0
  }

  ghost predicate ColumnsFollow(before: Db, connection: Id, events: seq<Event>, db: Db) {
    && (forall k :: k in db.columns ==>
          (k in before.columns && db.columns[k] == before.columns[k]) || IsReadId(connection, events, db, k.0))
    && (forall k :: k in db.columns ==> k in before.columns || IsReported(connection, events, db, k))
    && (forall k :: IsReported(connection, events, db, k) ==> k in db.columns)
  }

  ghost predicate Folded(before: Db, connection: Id, events: seq<Event>, db: Db) {
    && IdsAreUnique(db) && KeepsRows(before, db)
    && SchemasFollow(before, connection, SchemasSeen(events), db) && ReadsAreStored(connection, events, db)
    && DatasetsFollow(before, connection, events, db) && ColumnsFollow(before, connection, events, db)
  }

  // --- one more schema ------------------------------------------------------------------------

  ghost predicate SchemaPut(a: Db, b: Db, key: (Id, string)) {
    && b.datasets == a.datasets && b.columns == a.columns
    && (forall k :: k in b.schemas <==> k in a.schemas || k == key)
    && (forall k :: k in a.schemas && k != key ==> b.schemas[k] == a.schemas[k])
    && b.schemas[key].active
  }

  lemma UpsertSchemaIds(db: Db, connection: Id, name: string)
    requires IdsAreUnique(db)
    ensures IdsAreUnique(UpsertSchema(db, connection, name))
  {
  }

  lemma UpsertSchemaKeeps(db: Db, connection: Id, name: string)
    ensures KeepsRows(db, UpsertSchema(db, connection, name))
    ensures SchemaPut(db, UpsertSchema(db, connection, name), (connection, name))
  {
  }

  /** With the reads before it known to have their schema, a schema event changes no dataset and no column. */
  lemma SchemaStep(before: Db, connection: Id, events: seq<Event>, db: Db, name: string)
    requires Folded(before, connection, events, db)
    requires forall e :: e in events && e.ReadDataset? ==> (connection, e.schema) in db.schemas
    ensures Folded(before, connection, events + [SeenSchema(name)], UpsertSchema(db, connection, name))
  {
    var r, longer := UpsertSchema(db, connection, name), events + [SeenSchema(name)];
    hide UpsertSchema, IdsAreUnique, KeepsRows, SchemasFollow, ReadsAreStored, DatasetsFollow, ColumnsFollow, SchemaPut;
    UpsertSchemaIds(db, connection, name);
    UpsertSchemaKeeps(db, connection, name);
    SeenOneMore(events, SeenSchema(name));
    KeepsRowsTransitive(before, db, r);
    SchemaStepSchemas(before, connection, SchemasSeen(events), db, r, name);
    SchemaStepReads(connection, events, db, r, name);
    SchemaStepDatasets(before, connection, events, db, r, name);
    SchemaStepColumns(before, connection, events, db, r, name);
  }

  lemma SchemaStepSchemas(before: Db, connection: Id, seen: set<string>, db: Db, r: Db, name: string)
    requires SchemasFollow(before, connection, seen, db) && SchemaPut(db, r, (connection, name))
    ensures SchemasFollow(before, connection, seen + {name}, r)
  {
  }

  lemma SchemaStepReads(connection: Id, events: seq<Event>, db: Db, r: Db, name: string)
    requires ReadsAreStored(connection, events, db) && SchemaPut(db, r, (connection, name)) && KeepsRows(db, r)
    ensures ReadsAreStored(connection, events + [SeenSchema(name)], r)
  {
    var longer := events + [SeenSchema(name)];
    assert longer[..|events|] == events;
    forall s, d | LastRead(longer, s, d).Some?
      ensures (connection, s) in r.schemas && Stored(r, r.schemas[(connection, s)].id, d, LastRead(longer, s, d).value)
    {
      assert LastRead(longer, s, d) == LastRead(events, s, d);
      StoredSame(db, r, db.schemas[(connection, s)].id, d, LastRead(events, s, d).value);
    }
  }

  lemma StoredSame(a: Db, b: Db, schema: Id, name: string, read: Read)
    requires Stored(a, schema, name, read) && b.datasets == a.datasets && b.columns == a.columns
    ensures Stored(b, schema, name, read)
  {
  }

  lemma SchemaStepDatasets(before: Db, connection: Id, events: seq<Event>, db: Db, r: Db, name: string)
    requires DatasetsFollow(before, connection, events, db) && SchemaPut(db, r, (connection, name)) && KeepsRows(db, r)
    requires forall e :: e in events && e.ReadDataset? ==> (connection, e.schema) in db.schemas
    ensures DatasetsFollow(before, connection, events + [SeenSchema(name)], r)
  {
    SameReads(connection, events, db, events + [SeenSchema(name)], r);
    hide KeysRead, IsReported, KeepsRows;
  }

  lemma SchemaStepColumns(before: Db, connection: Id, events: seq<Event>, db: Db, r: Db, name: string)
    requires ColumnsFollow(before, connection, events, db) && SchemaPut(db, r, (connection, name)) && KeepsRows(db, r)
    requires forall e :: e in events && e.ReadDataset? ==> (connection, e.schema) in db.schemas
    ensures ColumnsFollow(before, connection, events + [SeenSchema(name)], r)
  {
    var longer := events + [SeenSchema(name)];
    SameReads(connection, events, db, longer, r);
    hide KeysRead, IsReported, KeepsRows;
    assert forall id :: IsReadId(connection, longer, r, id) <==> IsReadId(connection, events, db, id);
    hide IsReadId;
  }

  lemma SameReads(connection: Id, events: seq<Event>, db: Db, longer: seq<Event>, r: Db)
    requires forall e: Event :: e.ReadDataset? ==> (e in events <==> e in longer)
    requires forall e :: e in events && e.ReadDataset? ==> (connection, e.schema) in db.schemas
    requires KeepsRows(db, r) && r.datasets == db.datasets && r.columns == db.columns
    ensures KeysRead(r, connection, longer) == KeysRead(db, connection, events)
    ensures forall k :: IsReported(connection, longer, r, k) <==> IsReported(connection, events, db, k)
  {
    forall k ensures IsReported(connection, longer, r, k) <==> IsReported(connection, events, db, k) {
      if e :| e in longer && e.ReadDataset? && ReportedBy(connection, e, r, k) {
        assert e in events && ReportedBy(connection, e, db, k);
      }
      if e :| e in events && e.ReadDataset? && ReportedBy(connection, e, db, k) {
        assert e in longer && ReportedBy(connection, e, r, k);
      }
    }
  }

  // --- one more dataset -----------------------------------------------------------------------

  /** Every read so far has its schema and its dataset row. */
  ghost predicate ReadsHaveRows(connection: Id, events: seq<Event>, db: Db) {
    forall e :: e in events && e.ReadDataset? ==>
      (connection, e.schema) in db.schemas && (db.schemas[(connection, e.schema)].id, e.dataset) in db.datasets
  }

  lemma StoredReadsHaveRows(connection: Id, events: seq<Event>, db: Db)
    requires ReadsAreStored(connection, events, db)
    ensures ReadsHaveRows(connection, events, db)
  {
    forall e | e in events && e.ReadDataset?
      ensures (connection, e.schema) in db.schemas && (db.schemas[(connection, e.schema)].id, e.dataset) in db.datasets
    {
      LastReadIffRead(events, e.schema, e.dataset);
      assert (e.schema, e.dataset) in DatasetsRead(events);
    }
  }

  lemma OtherStored(a: Db, b: Db, key: (Id, string), names: set<string>, schema: Id, name: string, read: Read)
    requires Extends(a, b, key, names) && Stored(a, schema, name, read) && (schema, name) != key
    ensures Stored(b, schema, name, read)
  {
    var id := a.datasets[(schema, name)].id;
    assert id != b.datasets[key].id;
    OtherColumns(a, b, b.datasets[key].id, names, id);
    hide IdsAreUnique, ActiveColumns, Names;
  }

  lemma OtherColumns(a: Db, b: Db, touched: Id, names: set<string>, id: Id)
    requires id != touched && forall k :: k in b.columns <==> k in a.columns || (k.0 == touched && k.1 in names)
    requires forall k :: k in a.columns && k.0 != touched ==> b.columns[k] == a.columns[k]
    ensures ActiveColumns(b, id) == ActiveColumns(a, id)
  {
  }

  lemma DatasetStep(before: Db, connection: Id, events: seq<Event>, db: Db, schema: string, dataset: string, read: Read)
    requires Folded(before, connection, events, db) && (connection, schema) in db.schemas
    ensures Folded(before, connection, events + [ReadDataset(schema, dataset, read)],
                   UpsertDataset(db, db.schemas[(connection, schema)].id, dataset, read))
  {
    var id, e := db.schemas[(connection, schema)].id, ReadDataset(schema, dataset, read);
    var r, key, names := UpsertDataset(db, id, dataset, read), (id, dataset), Names(read.columns);
    UpsertDatasetStores(db, id, dataset, read);
    assert IdsAreUnique(r) && KeepsRows(db, r) && OnlyDataset(db, r, key, names);
    hide UpsertDataset, IdsAreUnique, KeepsRows, SchemasFollow, ReadsAreStored, DatasetsFollow, ColumnsFollow, Extends,
         Names, OnlyDataset, Stored;
    KeepsRowsTransitive(before, db, r);
    SeenOneMore(events, e);
    SameSchemas(before, connection, SchemasSeen(events), db, r, key, names);
    DatasetStepReads(connection, events, db, r, e);
    StoredReadsHaveRows(connection, events, db);
    MoreReads(connection, events, db, r, e);
    DatasetStepDatasets(before, connection, events, db, r, e);
    DatasetStepColumns(before, connection, events, db, r, e);
  }

  lemma SameSchemas(before: Db, connection: Id, seen: set<string>, db: Db, r: Db, key: (Id, string), names: set<string>)
    requires SchemasFollow(before, connection, seen, db) && OnlyDataset(db, r, key, names)
    ensures SchemasFollow(before, connection, seen + {}, r) && r.schemas == db.schemas
  {
    assert seen + {} == seen;
  }

  ghost predicate IsUpsert(connection: Id, db: Db, r: Db, e: Event) {
    && e.ReadDataset? && (connection, e.schema) in db.schemas
    && var key := (db.schemas[(connection, e.schema)].id, e.dataset);
       Extends(db, r, key, Names(e.read.columns)) && Stored(r, key.0, key.1, e.read)
  }

  lemma DatasetStepReads(connection: Id, events: seq<Event>, db: Db, r: Db, e: Event)
    requires ReadsAreStored(connection, events, db) && IsUpsert(connection, db, r, e) && IdsAreUnique(db)
    ensures ReadsAreStored(connection, events + [e], r)
  {
    var longer, key := events + [e], (db.schemas[(connection, e.schema)].id, e.dataset);
    assert longer[..|events|] == events;
    assert r.schemas == db.schemas;
    forall s, d | LastRead(longer, s, d).Some?
      ensures (connection, s) in r.schemas && Stored(r, r.schemas[(connection, s)].id, d, LastRead(longer, s, d).value)
    {
      hide Extends, Stored, Names;
      if (s, d) != (e.schema, e.dataset) {
        assert LastRead(longer, s, d) == LastRead(events, s, d);
        assert (db.schemas[(connection, s)].id, d) != key;
        hide IdsAreUnique;
        OtherStored(db, r, key, Names(e.read.columns), db.schemas[(connection, s)].id, d, LastRead(events, s, d).value);
      }
    }
  }

  /** The read adds its key, and reports its columns. */
  lemma MoreReads(connection: Id, events: seq<Event>, db: Db, r: Db, e: Event)
    requires IsUpsert(connection, db, r, e) && ReadsHaveRows(connection, events, db)
    ensures var key := (db.schemas[(connection, e.schema)].id, e.dataset);
      && key in r.datasets
      && KeysRead(r, connection, events + [e]) == KeysRead(db, connection, events) + {key}
      && (forall k :: IsReported(connection, events + [e], r, k) <==>
            IsReported(connection, events, db, k) || (k.0 == r.datasets[key].id && k.1 in Names(e.read.columns)))
  {
    var longer, key := events + [e], (db.schemas[(connection, e.schema)].id, e.dataset);
    assert key in r.datasets && r.schemas == db.schemas && KeepsRows(db, r);
    hide Extends, Stored, Names;
    forall k ensures IsReported(connection, longer, r, k) <==>
      IsReported(connection, events, db, k) || (k.0 == r.datasets[key].id && k.1 in Names(e.read.columns))
    {
      MoreReports(connection, events, db, r, e, k);
    }
  }

  lemma MoreReports(connection: Id, events: seq<Event>, db: Db, r: Db, e: Event, k: (Id, string))
    requires IsUpsert(connection, db, r, e) && ReadsHaveRows(connection, events, db)
    requires (db.schemas[(connection, e.schema)].id, e.dataset) in r.datasets
    ensures IsReported(connection, events + [e], r, k) <==>
      || IsReported(connection, events, db, k)
      || (k.0 == r.datasets[(db.schemas[(connection, e.schema)].id, e.dataset)].id && k.1 in Names(e.read.columns))
  {
    var longer, key := events + [e], (db.schemas[(connection, e.schema)].id, e.dataset);
    assert r.schemas == db.schemas && KeepsRows(db, r);
    hide Extends, Stored, Names;
    if x :| x in longer && x.ReadDataset? && ReportedBy(connection, x, r, k) {
      if x in events { assert ReportedBy(connection, x, db, k); }
    }
    if x :| x in events && x.ReadDataset? && ReportedBy(connection, x, db, k) {
      assert x in longer && ReportedBy(connection, x, r, k);
    }
    if k.0 == r.datasets[key].id && k.1 in Names(e.read.columns) {
      assert e in longer && ReportedBy(connection, e, r, k);
    }
  }

  lemma DatasetStepDatasets(before: Db, connection: Id, events: seq<Event>, db: Db, r: Db, e: Event)
    requires IsUpsert(connection, db, r, e) && DatasetsFollow(before, connection, events, db)
    requires KeysRead(r, connection, events + [e])
          == KeysRead(db, connection, events) + {(db.schemas[(connection, e.schema)].id, e.dataset)}
    ensures DatasetsFollow(before, connection, events + [e], r)
  {
    hide KeysRead, Stored, Names, IdsAreUnique, KeepsRows;
  }

  lemma DatasetStepColumns(before: Db, connection: Id, events: seq<Event>, db: Db, r: Db, e: Event)
    requires IsUpsert(connection, db, r, e) && ColumnsFollow(before, connection, events, db)
    requires var key := (db.schemas[(connection, e.schema)].id, e.dataset);
      && key in r.datasets
      && KeysRead(r, connection, events + [e]) == KeysRead(db, connection, events) + {key}
      && (forall k :: IsReported(connection, events + [e], r, k) <==>
            IsReported(connection, events, db, k) || (k.0 == r.datasets[key].id && k.1 in Names(e.read.columns)))
    ensures ColumnsFollow(before, connection, events + [e], r)
  {
    var longer, key := events + [e], (db.schemas[(connection, e.schema)].id, e.dataset);
    hide KeysRead, IsReported, Stored, Names, IdsAreUnique;
    forall k | k in r.columns
      ensures (k in before.columns && r.columns[k] == before.columns[k]) || IsReadId(connection, longer, r, k.0)
    {
      if k.0 == r.datasets[key].id {
        assert key in KeysRead(r, connection, longer);
      } else {
        assert k in db.columns && r.columns[k] == db.columns[k];
        if x :| x in KeysRead(db, connection, events) && x in db.datasets && db.datasets[x].id == k.0 {
          assert x in KeysRead(r, connection, longer) && x in r.datasets && r.datasets[x].id == k.0;
        }
      }
    }
  }

  // --- a whole run ----------------------------------------------------------------------------------

  lemma {:induction false} FoldKeeps(before: Db, connection: Id, events: seq<Event>)
    requires IdsAreUnique(before) && Ordered(events)
    ensures Folded(before, connection, events, Fold(before, connection, events))
  {
    if events != [] {
      var prior, e := events[..|events| - 1], events[|events| - 1];
      var db := Fold(before, connection, prior);
      FoldKeeps(before, connection, prior);
      StoredReadsHaveRows(connection, prior, db);
      assert events == prior + [e];
      match e
      case SeenSchema(s) => SchemaStep(before, connection, prior, db, s);
      case ReadDataset(s, d, read) =>
        assert (connection, s) in db.schemas;
        DatasetStep(before, connection, prior, db, s, d, read);
    }
  }

  /** What the final sweep leaves of a folded run. */
  ghost predicate Swept(folded: Db, connection: Id, seen: set<string>, keys: set<(Id, string)>, r: Db) {
    && r.columns == folded.columns && r.nextId == folded.nextId
    && r.schemas.Keys == folded.schemas.Keys && r.datasets.Keys == folded.datasets.Keys
    && (forall k :: k in r.schemas ==>
          r.schemas[k] == folded.schemas[k].(active := folded.schemas[k].active && (k.0 == connection ==> k.1 in seen)))
    && (forall k :: k in r.datasets ==>
          r.datasets[k] == folded.datasets[k].(active := folded.datasets[k].active
            && (k.0 in IdsOf(folded, connection) ==> k in keys)))
  }

  lemma SweepFrame(folded: Db, connection: Id, seen: set<string>, keys: set<(Id, string)>)
    ensures Swept(folded, connection, seen, keys, Sweep(folded, connection, seen, keys))
  {
    hide IdsOf;
  }

  /** The catalogue's active part is what the source listed and answered. */
  ghost predicate Mirrors(connection: Id, events: seq<Event>, db: Db) {
    && (forall n :: (connection, n) in db.schemas && db.schemas[(connection, n)].active <==> n in SchemasSeen(events))
    && (forall s, d :: (connection, s) in db.schemas ==>
          (IsActiveDataset(db, db.schemas[(connection, s)].id, d) <==> (s, d) in DatasetsRead(events)))
    && ReadsAreStored(connection, events, db)
  }

  ghost predicate IsActiveDataset(db: Db, schema: Id, name: string) {
    (schema, name) in db.datasets && db.datasets[(schema, name)].active
  }

  lemma SweepKeepsStored(connection: Id, events: seq<Event>, folded: Db)
    requires ReadsAreStored(connection, events, folded)
    ensures ReadsAreStored(connection, events,
                           Sweep(folded, connection, SchemasSeen(events), KeysRead(folded, connection, events)))
  {
    var r := Sweep(folded, connection, SchemasSeen(events), KeysRead(folded, connection, events));
    SweepFrame(folded, connection, SchemasSeen(events), KeysRead(folded, connection, events));
    hide Sweep;
    forall s, d | LastRead(events, s, d).Some?
      ensures (connection, s) in r.schemas && Stored(r, r.schemas[(connection, s)].id, d, LastRead(events, s, d).value)
    {
      var key := (folded.schemas[(connection, s)].id, d);
      ReadIsKeyed(connection, events, folded, s, d);
      hide KeysRead, LastRead, SchemasSeen;
      assert r.datasets[key] == folded.datasets[key];
      assert ActiveColumns(r, r.datasets[key].id) == ActiveColumns(folded, r.datasets[key].id);
    }
  }

  lemma ReadIsKeyed(connection: Id, events: seq<Event>, db: Db, s: string, d: string)
    requires LastRead(events, s, d).Some? && (connection, s) in db.schemas
    ensures (db.schemas[(connection, s)].id, d) in KeysRead(db, connection, events)
  {
    LastReadIffRead(events, s, d);
    var e :| e in events && e.ReadDataset? && (e.schema, e.dataset) == (s, d);
  }

  lemma KeyIsRead(connection: Id, events: seq<Event>, db: Db, s: string, d: string)
    requires IdsAreUnique(db) && (connection, s) in db.schemas
    requires (db.schemas[(connection, s)].id, d) in KeysRead(db, connection, events)
    ensures (s, d) in DatasetsRead(events) && LastRead(events, s, d).Some?
  {
    var e :| e in events && e.ReadDataset? && (connection, e.schema) in db.schemas
      && (db.schemas[(connection, e.schema)].id, e.dataset) == (db.schemas[(connection, s)].id, d);
    LastReadIffRead(events, s, d);
  }

  /**
    After a completed run the active schemas are those listed, the active datasets those read, and each read dataset
    has exactly the reported columns; identities are kept, names and ids stay unique, and nothing of another
    connection changes.
  */
  lemma RunMirrorsTheSource(db: Db, connection: Id, listing: seq<SchemaListing>)
    requires IdsAreUnique(db)
    ensures var r := Discover(db, connection, listing);
      && IdsAreUnique(r) && KeepsRows(db, r) && Mirrors(connection, Events(listing), r)
      && ForeignRowsKept(db, r, connection)
  {
    var events := Events(listing);
    EventsAreOrdered([], listing);
    assert [] + events == events;
    FoldKeeps(db, connection, events);
    hide Fold, Sweep, Events, KeysRead, SchemasSeen, Folded, IdsAreUnique, KeepsRows, Mirrors, ForeignRowsKept;
    SweptMirrors(db, connection, events, Fold(db, connection, events));
  }

  /** Nothing of another connection changed: no schema, no dataset of its schemas, no column of its datasets. */
  ghost predicate ForeignRowsKept(a: Db, b: Db, connection: Id) {
    && (forall k :: k in b.schemas && k.0 != connection ==> k in a.schemas && b.schemas[k] == a.schemas[k])
    && (forall k :: k in b.datasets && k.0 !in IdsOf(b, connection) ==>
          k in a.datasets && b.datasets[k] == a.datasets[k])
    && (forall k :: k in b.columns && !IsOwnDataset(b, connection, k.0) ==>
          k in a.columns && b.columns[k] == a.columns[k])
  }

  /** The id is that of a dataset of the connection. */
  ghost predicate IsOwnDataset(db: Db, connection: Id, id: Id) {
    exists k :: k in db.datasets && k.0 in IdsOf(db, connection) && db.datasets[k].id == id
  }

  lemma SweptMirrors(before: Db, connection: Id, events: seq<Event>, folded: Db)
    requires Folded(before, connection, events, folded)
    ensures var r := Sweep(folded, connection, SchemasSeen(events), KeysRead(folded, connection, events));
      IdsAreUnique(r) && KeepsRows(before, r) && Mirrors(connection, events, r)
        && ForeignRowsKept(before, r, connection)
  {
    hide Sweep, DatasetsFollow, ColumnsFollow, KeysRead, SchemasSeen, ReadsAreStored, Swept, IdsAreUnique,
         SchemasFollow, KeepsRows;
    var seen, keys := SchemasSeen(events), KeysRead(folded, connection, events);
    var r := Sweep(folded, connection, seen, keys);
    SweepFrame(folded, connection, seen, keys);
    SweepKeepsStored(connection, events, folded);
    SweptIds(folded, connection, seen, keys, r);
    KeepsRowsTransitive(before, folded, r);
    SweptSchemas(before, folded, connection, seen, keys, r);
    SweptForeign(before, folded, connection, events, r);
    SweptDatasets(folded, connection, events, r);
  }

  lemma SweptSchemas(before: Db, folded: Db, connection: Id, seen: set<string>, keys: set<(Id, string)>, r: Db)
    requires SchemasFollow(before, connection, seen, folded) && Swept(folded, connection, seen, keys, r)
    ensures forall n :: (connection, n) in r.schemas && r.schemas[(connection, n)].active <==> n in seen
    ensures forall k :: k in r.schemas && k.0 != connection ==> k in before.schemas && r.schemas[k] == before.schemas[k]
  {
  }

  lemma SweptForeign(before: Db, folded: Db, connection: Id, events: seq<Event>, r: Db)
    requires SchemasFollow(before, connection, SchemasSeen(events), folded)
    requires DatasetsFollow(before, connection, events, folded) && ColumnsFollow(before, connection, events, folded)
    requires Swept(folded, connection, SchemasSeen(events), KeysRead(folded, connection, events), r)
    ensures ForeignRowsKept(before, r, connection)
  {
    hide KeysRead, SchemasSeen, IdsOf, SchemasFollow, DatasetsFollow, ColumnsFollow, Swept, IsOwnDataset;
    SweptSchemas(before, folded, connection, SchemasSeen(events), KeysRead(folded, connection, events), r);
    SweptForeignDatasets(before, folded, connection, events, r);
    SweptForeignColumns(before, folded, connection, events, r);
  }

  lemma SweptForeignDatasets(before: Db, folded: Db, connection: Id, events: seq<Event>, r: Db)
    requires DatasetsFollow(before, connection, events, folded)
    requires Swept(folded, connection, SchemasSeen(events), KeysRead(folded, connection, events), r)
    ensures IdsOf(r, connection) == IdsOf(folded, connection)
    ensures forall k :: k in r.datasets && k.0 !in IdsOf(r, connection) ==>
      k in before.datasets && r.datasets[k] == before.datasets[k]
  {
    assert forall k :: k in KeysRead(folded, connection, events) ==> k.0 in IdsOf(folded, connection);
    hide KeysRead, SchemasSeen;
  }

  lemma SweptForeignColumns(before: Db, folded: Db, connection: Id, events: seq<Event>, r: Db)
    requires ColumnsFollow(before, connection, events, folded) && IdsOf(r, connection) == IdsOf(folded, connection)
    requires Swept(folded, connection, SchemasSeen(events), KeysRead(folded, connection, events), r)
    ensures forall k :: k in r.columns && !IsOwnDataset(r, connection, k.0) ==>
      k in before.columns && r.columns[k] == before.columns[k]
  {
    assert forall k :: k in KeysRead(folded, connection, events) ==> k.0 in IdsOf(folded, connection);
    hide KeysRead, SchemasSeen, IdsOf, IsReported;
    forall id | IsReadId(connection, events, folded, id) ensures IsOwnDataset(r, connection, id) {
      var k :| k in KeysRead(folded, connection, events) && k in folded.datasets && folded.datasets[k].id == id;
      assert k in r.datasets && r.datasets[k].id == id;
    }
    hide IsReadId, IsOwnDataset;
  }

  lemma SweptDatasets(folded: Db, connection: Id, events: seq<Event>, r: Db)
    requires IdsAreUnique(folded) && ReadsAreStored(connection, events, r)
    requires Swept(folded, connection, SchemasSeen(events), KeysRead(folded, connection, events), r)
    ensures forall s, d :: (connection, s) in r.schemas ==>
      (IsActiveDataset(r, r.schemas[(connection, s)].id, d) <==> (s, d) in DatasetsRead(events))
  {
    forall s, d | (connection, s) in r.schemas
      ensures IsActiveDataset(r, r.schemas[(connection, s)].id, d) <==> (s, d) in DatasetsRead(events)
    {
      hide KeysRead, SchemasSeen, DatasetsRead, Stored, LastRead;
      var key := (folded.schemas[(connection, s)].id, d);
      assert key.0 in IdsOf(folded, connection);
      LastReadIffRead(events, s, d);
      if key in KeysRead(folded, connection, events) { KeyIsRead(connection, events, folded, s, d); }
      if LastRead(events, s, d).Some? { StoredIsActive(r, key.0, d, LastRead(events, s, d).value); }
    }
  }

  lemma StoredIsActive(db: Db, schema: Id, name: string, read: Read)
    requires Stored(db, schema, name, read)
    ensures IsActiveDataset(db, schema, name)
  {
  }

  lemma SweptIds(a: Db, connection: Id, seen: set<string>, keys: set<(Id, string)>, b: Db)
    requires IdsAreUnique(a) && Swept(a, connection, seen, keys, b)
    ensures IdsAreUnique(b) && KeepsRows(a, b)
  {
    hide IdsOf;
  }

  // --- a second run ---------------------------------------------------------------------------------------

  /** The same rows with the same identities and active flags. */
  ghost predicate SameCatalogue(a: Db, b: Db) {
    && b.schemas.Keys == a.schemas.Keys && b.datasets.Keys == a.datasets.Keys && b.columns.Keys == a.columns.Keys
    && (forall k :: k in a.schemas ==> b.schemas[k] == a.schemas[k])
    && (forall k :: k in a.datasets ==>
          b.datasets[k].id == a.datasets[k].id && b.datasets[k].active == a.datasets[k].active)
    && (forall k :: k in a.columns ==> b.columns[k].id == a.columns[k].id && b.columns[k].active == a.columns[k].active)
  }

  /** A completed run whose events are all accounted for. */
  ghost predicate Completed(connection: Id, events: seq<Event>, db: Db) {
    && IdsAreUnique(db) && Mirrors(connection, events, db) && ReadsHaveRows(connection, events, db)
    && forall k :: IsReported(connection, events, db, k) ==> k in db.columns
  }

  lemma SweptCompletes(before: Db, connection: Id, events: seq<Event>, folded: Db)
    requires Folded(before, connection, events, folded)
    ensures Completed(connection, events,
                      Sweep(folded, connection, SchemasSeen(events), KeysRead(folded, connection, events)))
  {
    hide Sweep, KeysRead, SchemasSeen, ReadsAreStored, DatasetsFollow, ColumnsFollow, SchemasFollow, IdsAreUnique,
         KeepsRows, Swept, ReadsHaveRows, ForeignRowsKept;
    var r := Sweep(folded, connection, SchemasSeen(events), KeysRead(folded, connection, events));
    SweptMirrors(before, connection, events, folded);
    SweepFrame(folded, connection, SchemasSeen(events), KeysRead(folded, connection, events));
    StoredReadsHaveRows(connection, events, r);
    SweptReported(before, connection, events, folded, r);
  }

  lemma SweptReported(before: Db, connection: Id, events: seq<Event>, folded: Db, r: Db)
    requires ColumnsFollow(before, connection, events, folded)
    requires Swept(folded, connection, SchemasSeen(events), KeysRead(folded, connection, events), r)
    ensures forall k :: IsReported(connection, events, r, k) ==> k in r.columns
  {
    hide KeysRead, SchemasSeen, Names, IdsOf, IsReadId;
    forall k | IsReported(connection, events, r, k) ensures k in r.columns {
      var e :| e in events && e.ReadDataset? && ReportedBy(connection, e, r, k);
      assert ReportedBy(connection, e, folded, k);
    }
  }

  lemma RerunSchemas(connection: Id, events: seq<Event>, b: Db, f: Db, c: Db)
    requires Mirrors(connection, events, b) && KeepsRows(b, f) && SchemasFollow(b, connection, SchemasSeen(events), f)
    requires Swept(f, connection, SchemasSeen(events), KeysRead(f, connection, events), c)
    ensures c.schemas == b.schemas
  {
    hide ReadsAreStored, KeysRead, SchemasSeen, DatasetsRead, IdsOf;
    forall k | k in f.schemas ensures k in b.schemas && c.schemas[k] == b.schemas[k] {
      if k.0 == connection { assert (connection, k.1) == k; }
    }
  }

  lemma RerunDatasetRow(connection: Id, events: seq<Event>, b: Db, f: Db, c: Db, k: (Id, string))
    requires Completed(connection, events, b) && Folded(b, connection, events, f) && f.schemas.Keys == b.schemas.Keys
    requires Swept(f, connection, SchemasSeen(events), KeysRead(f, connection, events), c) && k in f.datasets
    ensures k in b.datasets && c.datasets[k].id == b.datasets[k].id && c.datasets[k].active == b.datasets[k].active
  {
    hide ColumnsFollow, SchemasFollow, IdsAreUnique, SchemasSeen, LastRead, Stored;
    if k in KeysRead(f, connection, events) {
      var e :| e in events && e.ReadDataset? && (connection, e.schema) in f.schemas
        && (f.schemas[(connection, e.schema)].id, e.dataset) == k;
      KeyIsRead(connection, events, f, e.schema, e.dataset);
      StoredIsActive(f, k.0, k.1, LastRead(events, e.schema, e.dataset).value);
      assert IsActiveDataset(b, k.0, k.1);
    } else if k.0 in IdsOf(f, connection) {
      var x :| x in f.schemas && x.0 == connection && f.schemas[x].id == k.0;
      assert x == (connection, x.1) && b.schemas[x].id == k.0;
      if IsActiveDataset(b, k.0, k.1) {
        LastReadIffRead(events, x.1, k.1);
        ReadIsKeyed(connection, events, f, x.1, k.1);
        assert false;
      }
    }
  }

  lemma RerunColumnRow(connection: Id, events: seq<Event>, b: Db, f: Db, k: (Id, string))
    requires Completed(connection, events, b) && Folded(b, connection, events, f) && f.schemas.Keys == b.schemas.Keys
    requires k in f.columns
    ensures k in b.columns && f.columns[k].id == b.columns[k].id && f.columns[k].active == b.columns[k].active
  {
    hide DatasetsFollow, SchemasFollow, SchemasSeen, LastRead, Names;
    if IsReported(connection, events, f, k) {
      var e :| e in events && e.ReadDataset? && ReportedBy(connection, e, f, k);
      assert ReportedBy(connection, e, b, k);
      assert IsReported(connection, events, b, k);
    }
    if IsReadId(connection, events, f, k.0) {
      var x :| x in KeysRead(f, connection, events) && x in f.datasets && f.datasets[x].id == k.0;
      var e :| e in events && e.ReadDataset? && (connection, e.schema) in f.schemas
        && (f.schemas[(connection, e.schema)].id, e.dataset) == x;
      hide IdsAreUnique;
      SameActiveColumns(connection, events, b, f, e.schema, e.dataset);
      assert k.1 in ActiveColumns(f, k.0) <==> f.columns[k].active by { assert k == (k.0, k.1); }
      assert k.1 in ActiveColumns(b, k.0) <==> b.columns[k].active by { assert k == (k.0, k.1); }
    }
  }

  lemma SameActiveColumns(connection: Id, events: seq<Event>, b: Db, f: Db, schema: string, dataset: string)
    requires ReadsAreStored(connection, events, b) && ReadsAreStored(connection, events, f) && KeepsRows(b, f)
    requires (schema, dataset) in DatasetsRead(events)
    ensures (connection, schema) in f.schemas
    ensures var key := (f.schemas[(connection, schema)].id, dataset);
      key in f.datasets && ActiveColumns(f, f.datasets[key].id) == ActiveColumns(b, f.datasets[key].id)
  {
    LastReadIffRead(events, schema, dataset);
    hide LastRead, Names, ActiveColumns;
  }

  lemma RerunSame(connection: Id, events: seq<Event>, b: Db, f: Db)
    requires Completed(connection, events, b) && Folded(b, connection, events, f)
    ensures SameCatalogue(b, Sweep(f, connection, SchemasSeen(events), KeysRead(f, connection, events)))
  {
    hide Sweep, KeysRead, SchemasSeen, IdsOf, SchemasFollow, ReadsAreStored, DatasetsFollow, ColumnsFollow,
         IdsAreUnique, IsReported;
    var seen, keys := SchemasSeen(events), KeysRead(f, connection, events);
    var c := Sweep(f, connection, seen, keys);
    SweepFrame(f, connection, seen, keys);
    RerunSchemas(connection, events, b, f, c);
    assert f.schemas.Keys == c.schemas.Keys == b.schemas.Keys;
    assert KeepsRows(b, f);
    hide Completed, Folded, KeepsRows;
    RerunDatasets(connection, events, b, f, c);
    RerunColumns(connection, events, b, f);
  }

  lemma RerunDatasets(connection: Id, events: seq<Event>, b: Db, f: Db, c: Db)
    requires Completed(connection, events, b) && Folded(b, connection, events, f) && f.schemas.Keys == b.schemas.Keys
    requires Swept(f, connection, SchemasSeen(events), KeysRead(f, connection, events), c)
    ensures c.datasets.Keys == b.datasets.Keys
    ensures forall k :: k in b.datasets ==>
      c.datasets[k].id == b.datasets[k].id && c.datasets[k].active == b.datasets[k].active
  {
    assert KeepsRows(b, f);
    hide Completed, Folded, KeysRead, SchemasSeen, IdsOf;
    forall k | k in f.datasets
      ensures k in b.datasets && c.datasets[k].id == b.datasets[k].id && c.datasets[k].active == b.datasets[k].active
    {
      RerunDatasetRow(connection, events, b, f, c, k);
    }
  }

  lemma RerunColumns(connection: Id, events: seq<Event>, b: Db, f: Db)
    requires Completed(connection, events, b) && Folded(b, connection, events, f) && f.schemas.Keys == b.schemas.Keys
    ensures f.columns.Keys == b.columns.Keys
    ensures forall k :: k in b.columns ==>
      f.columns[k].id == b.columns[k].id && f.columns[k].active == b.columns[k].active
  {
    assert KeepsRows(b, f);
    hide Completed, Folded;
    forall k | k in f.columns
      ensures k in b.columns && f.columns[k].id == b.columns[k].id && f.columns[k].active == b.columns[k].active
    {
      RerunColumnRow(connection, events, b, f, k);
    }
  }

  /** Discovering an unchanged source a second time changes no row's identity and no active flag. */
  lemma RerunChangesNothing(db: Db, connection: Id, listing: seq<SchemaListing>)
    requires IdsAreUnique(db)
    ensures var once := Discover(db, connection, listing); SameCatalogue(once, Discover(once, connection, listing))
  {
    var events := Events(listing);
    EventsAreOrdered([], listing);
    assert [] + events == events;
    FoldKeeps(db, connection, events);
    SweptCompletes(db, connection, events, Fold(db, connection, events));
    var once := Discover(db, connection, listing);
    assert IdsAreUnique(once);
    FoldKeeps(once, connection, events);
    hide Fold, Sweep, Events, KeysRead, SchemasSeen, Folded, IdsAreUnique, SameCatalogue, Completed;
    RerunSame(connection, events, once, Fold(once, connection, events));
  }
}
