/** Referential integrity of the catalog over every sequence of operations, and
    what a rename keeps. */
module CatalogIntegrity {
  import opened Wrappers
  import opened Naming
  import opened Relations

  /** What a document needs to exist. */
  ghost predicate Anchored(c: Catalog, d: Doc) {
    match d
    case CollectionDoc(db, _, _) => Has(c, DatabaseKey(db))
    case PartitionDoc(db, coll, _, _) => Has(c, CollectionKey(db, coll))
    case IndexDoc(db, coll, _, _, _, _, _) => Has(c, CollectionKey(db, coll))
    case AliasDoc(db, _, coll) => Has(c, CollectionKey(db, coll))
    case LoadDoc(db, coll, loaded, _, _, _) => loaded ==> Has(c, CollectionKey(db, coll))
    case _ => true
  }

  ghost predicate Integrity(c: Catalog) {
    Keyed(c) && forall d <- c :: Anchored(c, d)
  }

  lemma PutKeepsIntegrity(c: Catalog, d: Doc)
    requires Integrity(c) && Anchored(Put(c, d), d)
    ensures Integrity(Put(c, d)) && Has(Put(c, d), KeyOf(d))
    ensures forall key :: Has(c, key) ==> Has(Put(c, d), key)
  {
  }

  lemma PutHas(c: Catalog, d: Doc)
    ensures forall key :: Has(Put(c, d), key) <==> Has(c, key) || key == KeyOf(d)
  {
  }

  lemma DeleteHas(c: Catalog, key: DocKey)
    ensures forall l :: Has(Delete(c, key), l) <==> Has(c, l) && l != key
  {
  }

  /** Documents nothing refers to may be deleted. */
  lemma DeleteKeepsIntegrity(c: Catalog, key: DocKey)
    requires Integrity(c) && !key.CollectionKey?
    requires key.DatabaseKey? ==> ListCollections(c, key.db) == {}
    ensures Integrity(Delete(c, key))
  {
    var c' := Delete(c, key);
    DeleteHas(c, key);
    assert forall e <- c :: e.CollectionDoc? ==> e.coll in ListCollections(c, e.db);
    forall e | e in c' ensures Anchored(c', e) {
      assert Anchored(c, e);
    }
  }

  lemma RemoveHas(c: Catalog, db: string, coll: string)
    ensures forall b, n :: Has(RemoveCollection(c, db, coll), CollectionKey(b, n)) <==> Has(c, CollectionKey(b, n)) && (b, n) != (db, coll)
    ensures forall b :: Has(RemoveCollection(c, db, coll), DatabaseKey(b)) <==> Has(c, DatabaseKey(b))
  {
  }

  lemma RemoveKeepsIntegrity(c: Catalog, db: string, coll: string)
    requires Integrity(c)
    ensures Integrity(RemoveCollection(c, db, coll))
  {
  }

  lemma PutAllHas(c: Catalog, ds: set<Doc>)
    ensures forall key :: Has(PutAll(c, ds), key) <==> Has(c, key) || Has(ds, key)
  {
  }

  lemma PutAllKeepsIntegrity(c: Catalog, ds: set<Doc>)
    requires Integrity(c) && Keyed(ds)
    requires forall d <- ds :: Anchored(PutAll(c, ds), d)
    ensures Integrity(PutAll(c, ds))
  {
  }

  lemma RelabelledKeyed(c: Catalog, db: string, coll: string, to: string)
    requires Keyed(c) && Has(c, CollectionKey(db, coll))
    ensures Keyed(Relabelled(c, db, coll, to))
    ensures CollectionDoc(db, to, MetaOf(c, db, coll)) in Relabelled(c, db, coll, to)
    ensures forall d <- Relabelled(c, db, coll, to) :: Belongs(d, db, to) && !d.AliasDoc?
  {
    var ds := Relabelled(c, db, coll, to);
    forall d, e | d in ds && e in ds && KeyOf(d) == KeyOf(e) ensures d == e {
      if d.IndexDoc? {
        MovedIndexesKeyed(c, db, coll, to, d, e);
      }
    }
  }

  lemma MovedIndexesKeyed(c: Catalog, db: string, coll: string, to: string, d: Doc, e: Doc)
    requires Keyed(c) && Has(c, CollectionKey(db, coll))
    requires d in Relabelled(c, db, coll, to) && e in Relabelled(c, db, coll, to)
    requires d.IndexDoc? && KeyOf(d) == KeyOf(e)
    ensures d == e
  {
  }

  lemma RenameKeepsIntegrity(c: Catalog, db: string, coll: string, to: string)
    requires Integrity(c) && Has(c, CollectionKey(db, coll))
    ensures Integrity(PutAll(RemoveCollection(c, db, coll), Relabelled(c, db, coll, to)))
  {
    var c1, ds := RemoveCollection(c, db, coll), Relabelled(c, db, coll, to);
    RemoveKeepsIntegrity(c, db, coll);
    RemoveHas(c, db, coll);
    RelabelledKeyed(c, db, coll, to);
    PutAllHas(c1, ds);
    assert Has(ds, CollectionKey(db, to));
    assert Anchored(c, CollectionDoc(db, coll, MetaOf(c, db, coll)));
    forall d | d in ds ensures Anchored(PutAll(c1, ds), d) {
      assert Belongs(d, db, to);
    }
    PutAllKeepsIntegrity(c1, ds);
  }

  lemma CreateCollectionKeepsIntegrity(c: Catalog, db: string, coll: string, meta: string, filesOk: bool)
    requires Integrity(c)
    ensures Integrity(CreateCollection(c, db, coll, meta, filesOk).c)
  {
    if CreateCollection(c, db, coll, meta, filesOk).error in {None, Some(FilesFailed)} {
      var d1 := CollectionDoc(db, coll, meta);
      var d2 := PartitionDoc(db, coll, DEFAULT_PARTITION, PartitionKind(DEFAULT_PARTITION));
      PutHas(c, d1);
      PutKeepsIntegrity(c, d1);
      PutHas(Put(c, d1), d2);
      PutKeepsIntegrity(Put(c, d1), d2);
      PutKeepsIntegrity(Put(Put(c, d1), d2), LoadDoc(db, coll, false, "collection", [], 1));
    }
  }

  /** One document put on a collection that exists. */
  lemma PutOnCollection(c: Catalog, d: Doc)
    requires Integrity(c) && Anchored(c, d)
    ensures Integrity(Put(c, d))
  {
  }

  /** Every operation keeps referential integrity, also when it fails. */
  lemma ApplyKeepsIntegrity(c: Catalog, op: Op)
    requires Integrity(c)
    ensures Integrity(Apply(c, op).c)
  {
    match op
    case OpCreateDatabase(db) => PutOnCollection(c, DatabaseDoc(db));
    case OpDropDatabase(db) =>
      if DropDatabase(c, db).error.None? {
        DeleteKeepsIntegrity(c, DatabaseKey(db));
      }
    case OpCreateCollection(db, coll, meta, filesOk) => CreateCollectionKeepsIntegrity(c, db, coll, meta, filesOk);
    case OpDropCollection(db, name, _) => RemoveKeepsIntegrity(c, db, Resolve(c, db, name));
    case OpRename(db, coll, to, _) =>
      if Has(c, CollectionKey(db, coll)) {
        RenameKeepsIntegrity(c, db, coll, to);
      }
    case OpLoad(db, name, replicas) =>
      if Has(c, CollectionKey(db, Resolve(c, db, name))) {
        PutOnCollection(c, LoadDoc(db, Resolve(c, db, name), true, "collection", [], OrOne(replicas)));
      }
    case OpRelease(db, name) => PutOnCollection(c, LoadDoc(db, Resolve(c, db, name), false, "collection", [], 1));
    case _ => SmallOpKeepsIntegrity(c, op);
  }

  predicate IsSmallOp(op: Op) {
    !op.OpCreateDatabase? && !op.OpDropDatabase? && !op.OpCreateCollection? && !op.OpDropCollection?
    && !op.OpRename? && !op.OpLoad? && !op.OpRelease?
  }

  /** The operations on partitions, aliases, indexes and the rest. */
  lemma SmallOpKeepsIntegrity(c: Catalog, op: Op)
    requires Integrity(c) && IsSmallOp(op)
    ensures Integrity(Apply(c, op).c)
  {
    match op
    case OpCreatePartition(db, name, part, _) =>
      if Has(c, CollectionKey(db, Resolve(c, db, name))) {
        PutOnCollection(c, PartitionDoc(db, Resolve(c, db, name), part, PartitionKind(part)));
      }
    case OpDropPartition(db, name, part, _) => DeleteKeepsIntegrity(c, PartitionKey(db, Resolve(c, db, name), part));
    case OpLoadPartitions(db, name, parts) =>
      if Has(c, CollectionKey(db, Resolve(c, db, name))) {
        PutOnCollection(c, LoadDoc(db, Resolve(c, db, name), true, "partition", parts, 1));
      }
    case OpReleasePartitions(db, name, parts) => PutOnCollection(c, LoadDoc(db, Resolve(c, db, name), false, "collection", [], 1));
    case OpPutOther(docType, name, body) => PutOnCollection(c, OtherDoc(docType, name, body));
    case OpDeleteOther(docType, name) => DeleteKeepsIntegrity(c, OtherKey(docType, name));
    case _ =>
      if op.OpCreateIndex? || op.OpDropIndex? {
        IndexOpKeepsIntegrity(c, op);
      } else {
        AliasOpKeepsIntegrity(c, op);
      }
  }

  lemma AliasOpKeepsIntegrity(c: Catalog, op: Op)
    requires Integrity(c)
    requires op.OpCreateAlias? || op.OpAlterAlias? || op.OpDropAlias?
    ensures Integrity(Apply(c, op).c)
  {
    match op
    case OpCreateAlias(db, alias, coll) =>
      if Has(c, CollectionKey(db, coll)) {
        PutOnCollection(c, AliasDoc(db, alias, coll));
      }
    case OpAlterAlias(db, alias, coll) =>
      if Has(c, CollectionKey(db, coll)) {
        PutOnCollection(c, AliasDoc(db, alias, coll));
      }
    case OpDropAlias(db, alias) => DeleteKeepsIntegrity(c, AliasKey(db, alias));
  }

  lemma IndexOpKeepsIntegrity(c: Catalog, op: Op)
    requires Integrity(c) && (op.OpCreateIndex? || op.OpDropIndex?)
    ensures Integrity(Apply(c, op).c)
  {
    match op
    case OpCreateIndex(db, name, index, field, itype, metric, params, _, _) =>
      if Has(c, CollectionKey(db, Resolve(c, db, name))) {
        PutOnCollection(c, IndexDoc(db, Resolve(c, db, name), index, field, itype, metric, params));
      }
    case OpDropIndex(db, name, index) => DeleteKeepsIntegrity(c, IndexKey(db, Resolve(c, db, name), Replace(index)));
  }

  /** Referential integrity in every reachable catalog state. */
  lemma {:induction false} IntegrityAlways(c: Catalog, ops: seq<Op>)
    requires Integrity(c)
    ensures Integrity(ApplyAll(c, ops))
  {
    if ops != [] {
      IntegrityAlways(c, ops[..|ops| - 1]);
      ApplyKeepsIntegrity(ApplyAll(c, ops[..|ops| - 1]), ops[|ops| - 1]);
    }
  }

  /** The catalog that ensure_defaults seeds. */
  function Seed(user: string, body: string): Catalog {
    {DatabaseDoc(DEFAULT_DB), OtherDoc(DOC_USER, user, body), OtherDoc(DOC_ROLE, "admin", "")}
  }

  /** After any operations on a seeded catalog, names resolve once and for all,
      and every alias resolves to a collection that exists. */
  lemma ResolutionIsSound(user: string, body: string, ops: seq<Op>, db: string, name: string)
    ensures var c := ApplyAll(Seed(user, body), ops);
            && Integrity(c)
            && Resolve(c, db, Resolve(c, db, name)) == Resolve(c, db, name)
            && (Has(c, AliasKey(db, name)) ==> Has(c, CollectionKey(db, Resolve(c, db, name))))
            && (Has(c, CollectionKey(db, name)) ==> Resolve(c, db, name) == name)
  {
    var s := Seed(user, body);
    assert Integrity(s);
    IntegrityAlways(s, ops);
    var c := ApplyAll(s, ops);
    if !Has(c, CollectionKey(db, name)) && Has(c, AliasKey(db, name)) {
      assert Anchored(c, AliasDoc(db, name, AliasTarget(c, db, name)));
    }
  }

  /** The default database is in the catalog for ever: the document that keeps
      the engine from ever being empty. */
  lemma {:induction false} DefaultDatabaseStays(c: Catalog, ops: seq<Op>)
    requires Has(c, DatabaseKey(DEFAULT_DB))
    ensures Has(ApplyAll(c, ops), DatabaseKey(DEFAULT_DB))
  {
    if ops != [] {
      DefaultDatabaseStays(c, ops[..|ops| - 1]);
      StepKeepsDefault(ApplyAll(c, ops[..|ops| - 1]), ops[|ops| - 1]);
    }
  }

  lemma StepKeepsDefault(c: Catalog, op: Op)
    requires Has(c, DatabaseKey(DEFAULT_DB))
    ensures Has(Apply(c, op).c, DatabaseKey(DEFAULT_DB))
  {
    var d :| d in c && KeyOf(d) == DatabaseKey(DEFAULT_DB);
    if op.OpRename? {
      RenameKeepsDatabases(c, op, d);
    } else if op.OpCreateDatabase? {
      PutHas(c, DatabaseDoc(op.db));
    } else if IsSmallOp(op) {
      SmallOpKeepsDatabases(c, op, d);
    } else {
      CollectionOpKeepsDefault(c, op, d);
    }
  }

  lemma RenameKeepsDatabases(c: Catalog, op: Op, d: Doc)
    requires d in c && d.DatabaseDoc? && op.OpRename?
    ensures d in Apply(c, op).c
  {
    if Has(c, CollectionKey(op.db, op.coll)) {
      assert forall e <- Relabelled(c, op.db, op.coll, op.to) :: Belongs(e, op.db, op.to);
      hide Relabelled, ValidName;
      assert forall e <- Relabelled(c, op.db, op.coll, op.to) :: KeyOf(e) != KeyOf(d);
    }
  }

  lemma CollectionOpKeepsDefault(c: Catalog, op: Op, d: Doc)
    requires d in c && KeyOf(d) == DatabaseKey(DEFAULT_DB) && !IsSmallOp(op) && !op.OpRename? && !op.OpCreateDatabase?
    ensures d in Apply(c, op).c
  {
  }

  lemma SmallOpKeepsDatabases(c: Catalog, op: Op, d: Doc)
    requires d in c && d.DatabaseDoc? && IsSmallOp(op)
    ensures d in Apply(c, op).c
  {
  }

  // ---------- rename ----------

  /** An index definition without the collection it is on. */
  ghost predicate HasIndexDef(c: Catalog, db: string, coll: string, index: string, field: string, itype: string,
                              metric: string, params: map<string, string>) {
    IndexDoc(db, coll, index, field, itype, metric, params) in c
  }

  predicate Renames(c: Catalog, db: string, coll: string, to: string) {
    ValidName(to) && Has(c, CollectionKey(db, coll)) && !Has(c, CollectionKey(db, to))
  }

  ghost function Renamed(c: Catalog, db: string, coll: string, to: string): Catalog
    requires Has(c, CollectionKey(db, coll))
  {
    PutAll(RemoveCollection(c, db, coll), Relabelled(c, db, coll, to))
  }

  /** Documents of neither name are untouched, and the old name is gone. */
  lemma RenameTouchesOnly(c: Catalog, db: string, coll: string, to: string)
    requires Integrity(c) && Renames(c, db, coll, to)
    ensures var c' := Renamed(c, db, coll, to);
            && (forall d <- c' :: !Belongs(d, db, coll))
            && (forall d :: !Belongs(d, db, coll) && !Belongs(d, db, to) ==> (d in c' <==> d in c))
  {
    RelabelledKeyed(c, db, coll, to);
    var c', ds := Renamed(c, db, coll, to), Relabelled(c, db, coll, to);
    assert coll != to;
    forall d | d in c && !Belongs(d, db, coll) && !Belongs(d, db, to) ensures d in c' {
      forall e | e in ds ensures KeyOf(e) != KeyOf(d) {
        if KeyOf(e) == KeyOf(d) {
          KeyDecidesBelongs(e, d, db, to);
        }
      }
    }
  }

  lemma KeyDecidesBelongs(e: Doc, d: Doc, db: string, coll: string)
    requires !e.AliasDoc? && KeyOf(e) == KeyOf(d)
    ensures Belongs(e, db, coll) == Belongs(d, db, coll)
  {
  }

  /** Under the new name stand exactly the relabelled documents. */
  lemma RenamePuts(c: Catalog, db: string, coll: string, to: string)
    requires Integrity(c) && Renames(c, db, coll, to)
    ensures var c' := Renamed(c, db, coll, to);
            forall d :: Belongs(d, db, to) ==> (d in c' <==> d in Relabelled(c, db, coll, to))
  {
  }

  lemma RenameKeepsParts(c: Catalog, db: string, coll: string, to: string)
    requires Integrity(c) && Renames(c, db, coll, to)
    ensures ListPartitions(Renamed(c, db, coll, to), db, to) == ListPartitions(c, db, coll)
  {
    var c', ds := Renamed(c, db, coll, to), Relabelled(c, db, coll, to);
    RenamePuts(c, db, coll, to);
    RelabelledParts(c, db, coll, to);
    assert CollectionDoc(db, to, MetaOf(c, db, coll)) in ds;
    forall p ensures p in ListPartitions(c', db, to) <==> p in ListPartitions(c, db, coll) {
      if p in ListPartitions(c', db, to) && p != DEFAULT_PARTITION {
        var d :| d in c' && d.PartitionDoc? && d.db == db && d.coll == to && d.part == p;
        assert d in ds;
      }
      if p in ListPartitions(c, db, coll) {
        assert PartitionDoc(db, to, p, PartitionKind(p)) in ds;
      }
    }
  }

  lemma RenameKeepsSchema(c: Catalog, db: string, coll: string, to: string)
    requires Integrity(c) && Renames(c, db, coll, to)
    ensures var c' := Renamed(c, db, coll, to);
            && (forall i, f, t, m, p :: HasIndexDef(c', db, to, i, f, t, m, p) <==> HasIndexDef(c, db, coll, i, f, t, m, p))
            && (forall m :: CollectionDoc(db, to, m) in c' <==> CollectionDoc(db, coll, m) in c)
            && (forall a :: AliasDoc(db, a, to) !in c')
  {
    var c', ds := Renamed(c, db, coll, to), Relabelled(c, db, coll, to);
    RenamePuts(c, db, coll, to);
    RelabelledParts(c, db, coll, to);
    RelabelledKeyed(c, db, coll, to);
    forall m ensures CollectionDoc(db, to, m) in c' <==> CollectionDoc(db, coll, m) in c {
      if CollectionDoc(db, coll, m) in c {
        assert KeyOf(CollectionDoc(db, coll, m)) == KeyOf(CollectionDoc(db, coll, MetaOf(c, db, coll)));
      }
    }
  }

  /** Rename relabels and conserves.  Under the new name stand exactly the
      partitions, index definitions and schema that stood under the old one;
      nothing refers to the old name; everything else is untouched.  Aliases of
      the old name are dropped, not moved. */
  lemma RenameRelabels(c: Catalog, db: string, coll: string, to: string)
    requires Integrity(c) && Renames(c, db, coll, to)
    ensures RenameCollection(c, db, coll, to, true).error == None
    ensures var c' := RenameCollection(c, db, coll, to, true).c;
            && ListPartitions(c', db, to) == ListPartitions(c, db, coll)
            && (forall i, f, t, m, p :: HasIndexDef(c', db, to, i, f, t, m, p) <==> HasIndexDef(c, db, coll, i, f, t, m, p))
            && (forall m :: CollectionDoc(db, to, m) in c' <==> CollectionDoc(db, coll, m) in c)
            && (forall a :: AliasDoc(db, a, to) !in c')
            && (forall d <- c' :: !Belongs(d, db, coll))
            && (forall d :: !Belongs(d, db, coll) && !Belongs(d, db, to) ==> (d in c' <==> d in c))
  {
    RenameKeepsParts(c, db, coll, to);
    RenameKeepsSchema(c, db, coll, to);
    RenameTouchesOnly(c, db, coll, to);
  }

  lemma RelabelledParts(c: Catalog, db: string, coll: string, to: string)
    requires Has(c, CollectionKey(db, coll))
    ensures forall p, k :: PartitionDoc(db, to, p, k) in Relabelled(c, db, coll, to) ==> p in ListPartitions(c, db, coll)
    ensures forall i, f, t, m, p :: IndexDoc(db, to, i, f, t, m, p) in Relabelled(c, db, coll, to)
              <==> IndexDoc(db, coll, i, f, t, m, p) in c
    ensures forall m :: CollectionDoc(db, to, m) in Relabelled(c, db, coll, to) ==> m == MetaOf(c, db, coll)
  {
    var ds := Relabelled(c, db, coll, to);
    forall i, f, t, m, p ensures IndexDoc(db, to, i, f, t, m, p) in ds <==> IndexDoc(db, coll, i, f, t, m, p) in c {
      var d0 := IndexDoc(db, coll, i, f, t, m, p);
      if IndexDoc(db, to, i, f, t, m, p) in ds {
        var d :| d in ListIndexes(c, db, coll) && MoveIndex(d, to) == IndexDoc(db, to, i, f, t, m, p);
        assert d == d0;
      }
      if d0 in c {
        assert d0 in ListIndexes(c, db, coll);
        assert MoveIndex(d0, to) in ds;
      }
    }
  }

  /** Every stored load state has at least one replica. */
  ghost predicate Replicated(c: Catalog) {
    forall d <- c :: d.LoadDoc? ==> 1 <= d.replicas
  }

  lemma ApplyKeepsReplicated(c: Catalog, op: Op)
    requires Replicated(c)
    ensures Replicated(Apply(c, op).c)
  {
    hide Resolve, ListPartitions, ListCollections, Has, ValidName, Relabelled;
    if op.OpRename? && Has(c, CollectionKey(op.db, op.coll)) {
      CopiesReplicated(c, op.db, op.coll, op.to);
    }
  }

  lemma CopiesReplicated(c: Catalog, db: string, coll: string, to: string)
    requires Replicated(c) && Has(c, CollectionKey(db, coll))
    ensures Replicated(Relabelled(c, db, coll, to))
  {
  }

  /** After any operations. */
  lemma {:induction false} ReplicatedAlways(c: Catalog, ops: seq<Op>)
    requires Replicated(c)
    ensures Replicated(ApplyAll(c, ops))
  {
    if ops != [] {
      ReplicatedAlways(c, ops[..|ops| - 1]);
      ApplyKeepsReplicated(ApplyAll(c, ops[..|ops| - 1]), ops[|ops| - 1]);
    }
  }

  /** In every catalog reached from the seeded one, a rename moves the load state
      unchanged: loaded or not, scope, partition list and replica number. */
  lemma RenameKeepsLoadState(user: string, body: string, ops: seq<Op>, db: string, coll: string, to: string)
    requires Renames(ApplyAll(Seed(user, body), ops), db, coll, to)
    ensures var c := ApplyAll(Seed(user, body), ops);
            var c' := RenameCollection(c, db, coll, to, true).c;
            LoadState(c', db, to) == LoadState(c, db, coll).(coll := to)
  {
    var c := ApplyAll(Seed(user, body), ops);
    IntegrityAlways(Seed(user, body), ops);
    ReplicatedAlways(Seed(user, body), ops);
    var d := MoveLoad(LoadState(c, db, coll), to);
    assert d in Relabelled(c, db, coll, to);
    RenameKeepsIntegrity(c, db, coll, to);
    LoadStateIs(Renamed(c, db, coll, to), d);
  }

  lemma LoadStateIs(c: Catalog, d: Doc)
    requires Keyed(c) && d in c && d.LoadDoc?
    ensures LoadState(c, d.db, d.coll) == d
  {
  }
}
