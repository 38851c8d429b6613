/** Catalog operations document by document.  Every write publishes a snapshot,
    so the Reader loads the catalog between the writes of one operation, and a
    crash or a snapshot that cannot be written leaves it there. */
module CatalogSteps {
  import opened Wrappers
  import opened Naming
  import opened Relations
  import opened CatalogIntegrity

  datatype Write = PutDoc(doc: Doc) | DeleteKey(key: DocKey)

  function Do(c: Catalog, w: Write): Catalog {
    match w
    case PutDoc(d) => Put(c, d)
    case DeleteKey(key) => Delete(c, key)
  }

  function DoAll(c: Catalog, ws: seq<Write>): Catalog {
    if ws == [] then c else Do(DoAll(c, ws[..|ws| - 1]), ws[|ws| - 1])
  }

  function Puts(ds: seq<Doc>): (ws: seq<Write>)
    ensures |ws| == |ds|
  {
    seq(|ds|, i requires 0 <= i < |ds| => PutDoc(ds[i]))
  }

  function Deletes(keys: seq<DocKey>): (ws: seq<Write>)
    ensures |ws| == |keys|
  {
    seq(|keys|, i requires 0 <= i < |keys| => DeleteKey(keys[i]))
  }

  // ---------- the writes of an operation ----------

  /** The order in which a removal finds the documents of a collection, and in
      which a rename puts their copies. */
  datatype Order = Order(parts: seq<DocKey>, indexes: seq<DocKey>, aliases: seq<DocKey>,
                         newParts: seq<Doc>, newIndexes: seq<Doc>)

  /** For operations that list nothing. */
  const NO_ORDER := Order([], [], [], [], [])

  /** delete_collection_meta: the collection first, its load state last. */
  function RemovalKeys(db: string, coll: string, o: Order): seq<DocKey> {
    [CollectionKey(db, coll)] + o.parts + o.indexes + o.aliases + [LoadKey(db, coll)]
  }

  /** What a rename puts once the old documents are gone. */
  ghost function Copies(c: Catalog, db: string, coll: string, to: string, o: Order): seq<Doc>
    requires Has(c, CollectionKey(db, coll))
  {
    [CollectionDoc(db, to, MetaOf(c, db, coll))] + o.newParts + o.newIndexes + [MoveLoad(LoadState(c, db, coll), to)]
  }

  /** The operations that delete a collection's documents one by one. */
  predicate Removes(op: Op) {
    (op.OpDropCollection? || op.OpRename?) && op.filesOk
  }

  /** The collection whose documents they delete. */
  ghost function Target(c: Catalog, op: Op): string
    requires Removes(op)
  {
    if op.OpRename? then op.coll else Resolve(c, op.db, op.name)
  }

  ghost function Removal(c: Catalog, op: Op, o: Order): seq<DocKey>
    requires Removes(op)
  {
    RemovalKeys(op.db, Target(c, op), o)
  }

  /** The writes of an operation, in order.  One that is refused writes nothing. */
  ghost function Writes(c: Catalog, op: Op, o: Order): seq<Write> {
    if Removes(op) then
      if Apply(c, op).error.Some? then []
      else Deletes(Removal(c, op, o)) + if op.OpRename? then Puts(Copies(c, op.db, op.coll, op.to, o)) else []
    else
      var s := Apply(c, op);
      if s.error.Some? && s.error != Some(FilesFailed) then [] else SmallWrites(c, op)
  }

  /** The writes of the other operations, when they get as far as writing. */
  ghost function SmallWrites(c: Catalog, op: Op): seq<Write> {
    match op
    case OpCreateDatabase(db) => [PutDoc(DatabaseDoc(db))]
    case OpDropDatabase(db) => [DeleteKey(DatabaseKey(db))]
    case OpCreateCollection(db, coll, meta, filesOk) =>
      [PutDoc(CollectionDoc(db, coll, meta)), PutDoc(PartitionDoc(db, coll, DEFAULT_PARTITION, PartitionKind(DEFAULT_PARTITION)))]
      + if filesOk then [PutDoc(LoadDoc(db, coll, false, "collection", [], 1))] else []
    case OpDropCollection(_, _, _) => []
    case OpRename(_, _, _, _) => []
    case OpLoad(db, name, n) => [PutDoc(LoadDoc(db, Resolve(c, db, name), true, "collection", [], OrOne(n)))]
    case OpRelease(db, name) => [PutDoc(LoadDoc(db, Resolve(c, db, name), false, "collection", [], 1))]
    case OpCreatePartition(db, name, part, _) => [PutDoc(PartitionDoc(db, Resolve(c, db, name), part, PartitionKind(part)))]
    case OpDropPartition(db, name, part, filesOk) =>
      if filesOk then [DeleteKey(PartitionKey(db, Resolve(c, db, name), part))] else []
    case OpLoadPartitions(db, name, parts) => [PutDoc(LoadDoc(db, Resolve(c, db, name), true, "partition", parts, 1))]
    case OpReleasePartitions(db, name, parts) =>
      if parts == [] || ListPartitions(c, db, Resolve(c, db, name)) <= (set p | p in parts)
      then [PutDoc(LoadDoc(db, Resolve(c, db, name), false, "collection", [], 1))] else []
    case OpCreateAlias(db, alias, coll) => [PutDoc(AliasDoc(db, alias, coll))]
    case OpAlterAlias(db, alias, coll) => [PutDoc(AliasDoc(db, alias, coll))]
    case OpDropAlias(db, alias) => [DeleteKey(AliasKey(db, alias))]
    case OpCreateIndex(db, name, index, field, itype, metric, params, _, _) =>
      [PutDoc(IndexDoc(db, Resolve(c, db, name), index, field, itype, metric, params))]
    case OpDropIndex(db, name, index) => [DeleteKey(IndexKey(db, Resolve(c, db, name), Replace(index)))]
    case OpPutOther(docType, name, body) => [PutDoc(OtherDoc(docType, name, body))]
    case OpDeleteOther(docType, name) => [DeleteKey(OtherKey(docType, name))]
  }

  /** A document of the collection is stored under the key. */
  ghost predicate Stored(c: Catalog, db: string, coll: string, key: DocKey) {
    exists d <- c :: Belongs(d, db, coll) && KeyOf(d) == key
  }

  /** The order lists what is there: the stored partitions, the indexes and the
      aliases of the collection. */
  ghost predicate Lists(c: Catalog, db: string, coll: string, o: Order) {
    && (forall k :: k in o.parts <==> k.PartitionKey? && Stored(c, db, coll, k))
    && (forall k :: k in o.indexes <==> k.IndexKey? && Stored(c, db, coll, k))
    && (forall k :: k in o.aliases <==> k.AliasKey? && Stored(c, db, coll, k))
  }

  /** And what a rename copies. */
  ghost predicate ListsCopies(c: Catalog, db: string, coll: string, to: string, o: Order)
    requires Has(c, CollectionKey(db, coll))
  {
    && (forall d :: d in o.newParts <==> d.PartitionDoc? && d in Relabelled(c, db, coll, to))
    && (forall d :: d in o.newIndexes <==> d.IndexDoc? && d in Relabelled(c, db, coll, to))
  }

  ghost predicate Ordered(c: Catalog, op: Op, o: Order) {
    Removes(op) && Apply(c, op).error.None? ==>
      Lists(c, op.db, Target(c, op), o) && (op.OpRename? ==> ListsCopies(c, op.db, op.coll, op.to, o))
  }

  // ---------- all writes together are the operation ----------

  function DropKeys(c: Catalog, keys: seq<DocKey>): Catalog {
    set d | d in c && KeyOf(d) !in keys
  }

  lemma {:induction false} DeletesDrop(c: Catalog, keys: seq<DocKey>)
    ensures DoAll(c, Deletes(keys)) == DropKeys(c, keys)
  {
    if keys == [] {
      assert DropKeys(c, keys) == c;
    } else {
      var l := |keys| - 1;
      DeletesDrop(c, keys[..l]);
      assert Deletes(keys)[..l] == Deletes(keys[..l]);
      assert keys == keys[..l] + [keys[l]];
    }
  }

  /** Later writes go on from where the earlier ones ended. */
  lemma {:induction false} DoInTurn(c: Catalog, a: seq<Write>, b: seq<Write>)
    ensures DoAll(c, a + b) == DoAll(DoAll(c, a), b)
  {
    if b == [] {
      assert a + b == a;
    } else {
      var l := |b| - 1;
      assert (a + b)[..|a| + l] == a + b[..l];
      DoInTurn(c, a, b[..l]);
    }
  }

  lemma {:induction false} PutsPutAll(c: Catalog, ds: seq<Doc>, all: set<Doc>)
    requires Keyed(all) && forall d <- ds :: d in all
    ensures DoAll(c, Puts(ds)) == PutAll(c, (set d | d in ds))
  {
    if ds == [] {
      assert PutAll(c, (set d | d in ds)) == c;
    } else {
      var l := |ds| - 1;
      PutsPutAll(c, ds[..l], all);
      assert Puts(ds)[..l] == Puts(ds[..l]);
      assert ds == ds[..l] + [ds[l]];
      PutAllOneMore(c, (set d | d in ds[..l]), ds[l], all);
      assert (set d | d in ds) == (set d | d in ds[..l]) + {ds[l]};
    }
  }

  lemma PutAllOneMore(c: Catalog, a: set<Doc>, d: Doc, all: set<Doc>)
    requires Keyed(all) && a + {d} <= all
    ensures Put(PutAll(c, a), d) == PutAll(c, a + {d})
  {
  }

  /** Deleting the keys of a removal removes exactly what belongs to the collection. */
  lemma RemovalIsRemove(c: Catalog, db: string, coll: string, o: Order)
    requires Keyed(c) && Lists(c, db, coll, o)
    ensures DropKeys(c, RemovalKeys(db, coll, o)) == RemoveCollection(c, db, coll)
  {
  }

  lemma RemovalKeysAre(c: Catalog, db: string, coll: string, o: Order, d: Doc)
    requires Keyed(c) && Lists(c, db, coll, o) && d in c
    ensures KeyOf(d) in RemovalKeys(db, coll, o) <==> Belongs(d, db, coll)
  {
  }

  /** The writes are the operation: done in order, in whatever order the lists
      came, they give the catalog of the operation. */
  lemma WritesAreApply(c: Catalog, op: Op, o: Order)
    requires Keyed(c) && Ordered(c, op, o)
    ensures DoAll(c, Writes(c, op, o)) == Apply(c, op).c
  {
    if Removes(op) {
      if Apply(c, op).error.None? {
        RemovalWritesAreApply(c, op, o);
      }
    } else {
      SmallWritesAreApply(c, op);
    }
  }

  lemma OneWrite(c: Catalog, w: Write)
    ensures DoAll(c, [w]) == Do(c, w)
  {
  }

  lemma SmallWritesAreApply(c: Catalog, op: Op)
    requires !Removes(op)
    ensures DoAll(c, Writes(c, op, NO_ORDER)) == Apply(c, op).c
  {
    hide Replace, ValidName, Resolve, ListPartitions, ListCollections, Has;
    var ws := Writes(c, op, NO_ORDER);
    if |ws| == 1 {
      OneWrite(c, ws[0]);
      assert ws == [ws[0]];
    } else if |ws| > 1 {
      CreateWrites(c, op);
    }
  }

  /** Creating a collection: the collection, its default partition, its load state. */
  lemma CreateWrites(c: Catalog, op: Op)
    requires op.OpCreateCollection? && Apply(c, op).error in {None, Some(FilesFailed)}
    ensures var ws := SmallWrites(c, op);
            && DoAll(c, ws) == Apply(c, op).c
            && DoAll(c, ws[..1]) == Put(c, CollectionDoc(op.db, op.coll, op.meta))
            && DoAll(c, ws[..2]) == CreateCollection(c, op.db, op.coll, op.meta, false).c
  {
    var ws := SmallWrites(c, op);
    OneWrite(c, ws[0]);
    assert ws[..1] == [ws[0]] && ws[..2][..1] == ws[..1];
    assert |ws| == 3 ==> ws[..|ws| - 1] == ws[..2];
    assert |ws| == 2 ==> ws[..2] == ws;
  }

  lemma RemovalWritesAreApply(c: Catalog, op: Op, o: Order)
    requires Keyed(c) && Removes(op) && Apply(c, op).error.None? && Ordered(c, op, o)
    ensures DoAll(c, Writes(c, op, o)) == Apply(c, op).c
  {
    hide Lists, ListsCopies, Keyed, Relabelled, RemovalKeys, Copies;
    if op.OpRename? {
      RenameWrites(c, op.db, op.coll, op.to, o);
    } else {
      var keys := Removal(c, op, o);
      DeletesDrop(c, keys);
      RemovalIsRemove(c, op.db, Target(c, op), o);
      assert Writes(c, op, o) == Deletes(keys);
    }
  }

  lemma RenameWrites(c: Catalog, db: string, coll: string, to: string, o: Order)
    requires Keyed(c) && Has(c, CollectionKey(db, coll)) && Lists(c, db, coll, o) && ListsCopies(c, db, coll, to, o)
    ensures DoAll(c, Deletes(RemovalKeys(db, coll, o)) + Puts(Copies(c, db, coll, to, o)))
            == PutAll(RemoveCollection(c, db, coll), Relabelled(c, db, coll, to))
  {
    hide Relabelled, RemovalKeys;
    var keys, ds := RemovalKeys(db, coll, o), Copies(c, db, coll, to, o);
    DeletesDrop(c, keys);
    RemovalIsRemove(c, db, coll, o);
    DoInTurn(c, Deletes(keys), Puts(ds));
    RelabelledKeyed(c, db, coll, to);
    CopiesAre(c, db, coll, to, o);
    hide Copies, ListsCopies, Lists;
    PutsPutAll(DropKeys(c, keys), ds, Relabelled(c, db, coll, to));
    assert (set d | d in ds) == Relabelled(c, db, coll, to);
  }

  lemma CopiesAre(c: Catalog, db: string, coll: string, to: string, o: Order)
    requires Has(c, CollectionKey(db, coll)) && ListsCopies(c, db, coll, to, o)
    ensures forall d :: d in Copies(c, db, coll, to, o) <==> d in Relabelled(c, db, coll, to)
  {
  }

  /** delete_collection_meta reads each list after the deletions before it: it
      still finds exactly what was stored. */
  lemma ListsAsItGoes(c: Catalog, db: string, coll: string, o: Order)
    requires var c1 := Delete(c, CollectionKey(db, coll));
             var c2 := DropKeys(c1, o.parts);
             var c3 := DropKeys(c2, o.indexes);
             && (forall k :: k in o.parts <==> k.PartitionKey? && k.db == db && k.coll == coll && k.part in ListPartitions(c1, db, coll))
             && (forall k :: k in o.indexes <==> k.IndexKey? && exists d <- ListIndexes(c2, db, coll) :: KeyOf(d) == k)
             && (forall k :: k in o.aliases <==> k.AliasKey? && k.db == db && AliasDoc(db, k.alias, coll) in c3)
    ensures Lists(c, db, coll, o)
    ensures var c4 := DropKeys(DropKeys(DropKeys(Delete(c, CollectionKey(db, coll)), o.parts), o.indexes), o.aliases);
            Delete(c4, LoadKey(db, coll)) == DropKeys(c, RemovalKeys(db, coll, o))
  {
  }

  // ---------- an operation that stops half-way ----------

  /** A document that needs the collection it names. */
  predicate Leans(d: Doc, db: string, coll: string) {
    Belongs(d, db, coll) && !d.CollectionDoc? && (d.LoadDoc? ==> d.loaded)
  }

  /** Stopping after n writes is harmless: no removal has begun, or everything
      that needs the collection is among the keys deleted. */
  ghost predicate Harmless(c: Catalog, op: Op, o: Order, n: nat) {
    Removes(op) && Apply(c, op).error.None? && n > 0 ==>
      var keys := Removal(c, op, o);
      n < |keys| ==> forall d <- c :: Leans(d, op.db, Target(c, op)) ==> KeyOf(d) in keys[..n]
  }

  /** Deleting the collection's document and others of its documents keeps
      referential integrity exactly when nothing that needs it stays. */
  lemma DropKeysIntegrityIff(c: Catalog, db: string, coll: string, keys: seq<DocKey>)
    requires Integrity(c) && CollectionKey(db, coll) in keys
    requires forall d <- c :: KeyOf(d) in keys ==> Belongs(d, db, coll)
    ensures Integrity(DropKeys(c, keys)) <==> forall d <- c :: Leans(d, db, coll) ==> KeyOf(d) in keys
  {
    var c' := DropKeys(c, keys);
    assert forall key :: Has(c', key) <==> Has(c, key) && key !in keys;
    forall d | d in c' ensures Anchored(c', d) <==> !Leans(d, db, coll) {
      assert Anchored(c, d);
      DropAnchors(c, db, coll, keys, d);
    }
  }

  lemma DropAnchors(c: Catalog, db: string, coll: string, keys: seq<DocKey>, d: Doc)
    requires CollectionKey(db, coll) in keys && d in DropKeys(c, keys) && Anchored(c, d)
    requires forall d <- c :: KeyOf(d) in keys ==> Belongs(d, db, coll)
    ensures Anchored(DropKeys(c, keys), d) <==> !Leans(d, db, coll)
  {
  }

  /** A cut while the old documents are deleted. */
  lemma CutInDeletes(c: Catalog, op: Op, o: Order, n: nat)
    requires Integrity(c) && Ordered(c, op, o) && Removes(op) && Apply(c, op).error.None?
    requires 0 < n <= |Removal(c, op, o)|
    ensures n <= |Writes(c, op, o)|
    ensures DoAll(c, Writes(c, op, o)[..n]) == DropKeys(c, Removal(c, op, o)[..n])
    ensures Integrity(DoAll(c, Writes(c, op, o)[..n])) <==> Harmless(c, op, o, n)
  {
    var keys, coll := Removal(c, op, o), Target(c, op);
    assert Writes(c, op, o)[..n] == Deletes(keys[..n]);
    DeletesDrop(c, keys[..n]);
    assert keys[..n][0] == CollectionKey(op.db, coll);
    hide Lists, ListsCopies, RemovalKeys, Integrity, DropKeys;
    forall d | d in c ensures (KeyOf(d) in keys[..n] ==> Belongs(d, op.db, coll)) && (Belongs(d, op.db, coll) ==> KeyOf(d) in keys) {
      KeyedOf(c);
      RemovalKeysAre(c, op.db, coll, o, d);
    }
    DropKeysIntegrityIff(c, op.db, coll, keys[..n]);
    assert n == |keys| ==> keys[..n] == keys;
  }

  lemma KeyedOf(c: Catalog)
    requires Integrity(c)
    ensures Keyed(c)
  {
  }

  /** A cut while a rename puts its copies, the collection's own first. */
  lemma CutInCopies(c: Catalog, op: Op, o: Order, n: nat)
    requires Integrity(c) && Ordered(c, op, o) && Removes(op) && op.OpRename? && Apply(c, op).error.None?
    requires |Removal(c, op, o)| < n <= |Writes(c, op, o)|
    ensures Integrity(DoAll(c, Writes(c, op, o)[..n]))
    ensures Has(DoAll(c, Writes(c, op, o)[..n]), CollectionKey(op.db, op.to))
  {
    hide Lists, ListsCopies, RemovalKeys, Relabelled, Integrity;
    var db, coll, to := op.db, op.coll, op.to;
    var keys, ds := Removal(c, op, o), Copies(c, db, coll, to, o);
    var m := n - |keys|;
    assert Writes(c, op, o)[..n] == Deletes(keys) + Puts(ds[..m]);
    DoInTurn(c, Deletes(keys), Puts(ds[..m]));
    DeletesDrop(c, keys);
    KeyedOf(c);
    RemovalIsRemove(c, db, coll, o);
    RelabelledKeyed(c, db, coll, to);
    CopiesAre(c, db, coll, to, o);
    assert ds[..m][0] == CollectionDoc(db, to, MetaOf(c, db, coll));
    SomeCopies(c, db, coll, to, ds[..m]);
  }

  lemma SomeCopies(c: Catalog, db: string, coll: string, to: string, ds: seq<Doc>)
    requires Integrity(c) && Has(c, CollectionKey(db, coll))
    requires Keyed(Relabelled(c, db, coll, to)) && forall d <- ds :: d in Relabelled(c, db, coll, to) && Belongs(d, db, to) && !d.AliasDoc?
    requires CollectionDoc(db, to, MetaOf(c, db, coll)) in ds
    ensures var c' := DoAll(RemoveCollection(c, db, coll), Puts(ds)); Integrity(c') && Has(c', CollectionKey(db, to))
  {
    hide DoAll, Puts, RemoveCollection;
    var c1 := RemoveCollection(c, db, coll);
    var all := set d | d in ds;
    PutsPutAll(c1, ds, Relabelled(c, db, coll, to));
    hide Relabelled;
    RemoveKeepsIntegrity(c, db, coll);
    RemoveHas(c, db, coll);
    PutAllHas(c1, all);
    assert CollectionDoc(db, to, MetaOf(c, db, coll)) in all;
    assert Has(all, CollectionKey(db, to));
    assert Anchored(c, CollectionDoc(db, coll, MetaOf(c, db, coll)));
    PutAllKeepsIntegrity(c1, all);
  }

  /** An operation that stops after any number of its writes leaves referential
      integrity exactly when that is harmless: always, but for the removals. */
  lemma CutKeepsIntegrityIff(c: Catalog, op: Op, o: Order, n: nat)
    requires Integrity(c) && Ordered(c, op, o) && n <= |Writes(c, op, o)|
    ensures Integrity(DoAll(c, Writes(c, op, o)[..n])) <==> Harmless(c, op, o, n)
  {
    var ws := Writes(c, op, o);
    if n == 0 {
      assert ws[..0] == [];
    } else if !Removes(op) {
      SmallCutKeepsIntegrity(c, op, o, n);
    } else if n <= |Removal(c, op, o)| {
      CutInDeletes(c, op, o, n);
    } else {
      CutInCopies(c, op, o, n);
    }
  }

  lemma SmallCutKeepsIntegrity(c: Catalog, op: Op, o: Order, n: nat)
    requires Integrity(c) && !Removes(op) && 0 < n <= |Writes(c, op, o)|
    ensures Integrity(DoAll(c, Writes(c, op, o)[..n]))
  {
    var ws := Writes(c, op, o);
    if n == |ws| {
      assert ws[..n] == ws;
      WritesAreApply(c, op, o);
      ApplyKeepsIntegrity(c, op);
    } else {
      CreateWrites(c, op);
      if n == 1 {
        PutOnCollection(c, CollectionDoc(op.db, op.coll, op.meta));
      } else {
        CreateCollectionKeepsIntegrity(c, op.db, op.coll, op.meta, false);
      }
    }
  }

  /** A removal may stop anywhere exactly when nothing needs the collection.
      Otherwise already the first write is too much. */
  lemma RemovalSafeIff(c: Catalog, op: Op, o: Order)
    requires Integrity(c) && Ordered(c, op, o) && Removes(op) && Apply(c, op).error.None?
    ensures (forall n | 0 <= n <= |Writes(c, op, o)| :: Integrity(DoAll(c, Writes(c, op, o)[..n])))
            <==> forall d <- c :: !Leans(d, op.db, Target(c, op))
  {
    var ws := Writes(c, op, o);
    forall n | 0 <= n <= |ws| ensures Integrity(DoAll(c, ws[..n])) <==> Harmless(c, op, o, n) {
      CutKeepsIntegrityIff(c, op, o, n);
    }
    var keys := Removal(c, op, o);
    assert keys[..1] == [CollectionKey(op.db, Target(c, op))];
    assert Integrity(DoAll(c, ws[..1])) <==> Harmless(c, op, o, 1);
  }

  /** Between a rename's first delete and its first copy neither name is a
      collection, and then asking for the rename again is refused. */
  lemma RenameLosesIff(c: Catalog, op: Op, o: Order, n: nat)
    requires Integrity(c) && Ordered(c, op, o) && Removes(op) && op.OpRename? && Apply(c, op).error.None?
    requires n <= |Writes(c, op, o)|
    ensures var c' := DoAll(c, Writes(c, op, o)[..n]);
            !Has(c', CollectionKey(op.db, op.coll)) && !Has(c', CollectionKey(op.db, op.to)) <==> 0 < n <= |Removal(c, op, o)|
    ensures 0 < n <= |Removal(c, op, o)| ==> Apply(DoAll(c, Writes(c, op, o)[..n]), op).error == Some(NotFound)
  {
    RenameGuards(c, op);
    hide Writes, Removal, Ordered, Integrity, Apply, Has;
    if n == 0 {
      assert Writes(c, op, o)[..0] == [];
    } else if n <= |Removal(c, op, o)| {
      CutInDeletes(c, op, o, n);
      LostInDeletes(c, op, o, n);
    } else {
      CutInCopies(c, op, o, n);
    }
  }

  lemma RenameGuards(c: Catalog, op: Op)
    requires op.OpRename? && Apply(c, op).error.None?
    ensures ValidName(op.to) && Has(c, CollectionKey(op.db, op.coll)) && !Has(c, CollectionKey(op.db, op.to))
  {
  }

  lemma LostInDeletes(c: Catalog, op: Op, o: Order, n: nat)
    requires op.OpRename? && Removes(op) && ValidName(op.to) && !Has(c, CollectionKey(op.db, op.to)) && 0 < n <= |Removal(c, op, o)|
    ensures var c' := DropKeys(c, Removal(c, op, o)[..n]);
            && !Has(c', CollectionKey(op.db, op.coll)) && !Has(c', CollectionKey(op.db, op.to))
            && Apply(c', op).error == Some(NotFound)
  {
    assert Removal(c, op, o)[..n][0] == CollectionKey(op.db, op.coll);
  }

  /** What repairs a removal that stopped among its deletes: creating the
      collection again. */
  lemma CreatingAgainRepairs(c: Catalog, op: Op, o: Order, n: nat, meta: string)
    requires Integrity(c) && Ordered(c, op, o) && Removes(op) && Apply(c, op).error.None? && 0 < n <= |Removal(c, op, o)|
    requires ValidName(op.db) && ValidName(Target(c, op))
    ensures n <= |Writes(c, op, o)|
    ensures var s := CreateCollection(DoAll(c, Writes(c, op, o)[..n]), op.db, Target(c, op), meta, true);
            s.error == None && Integrity(s.c)
  {
    var db, coll, keys := op.db, Target(c, op), Removal(c, op, o)[..n];
    CutInDeletes(c, op, o, n);
    assert keys[0] == CollectionKey(db, coll);
    forall d | d in c && KeyOf(d) in keys ensures Belongs(d, db, coll) {
      KeyedOf(c);
      RemovalKeysAre(c, db, coll, o, d);
    }
    hide Lists, ListsCopies, Removal, Writes;
    assert Anchored(c, CollectionDoc(db, coll, MetaOf(c, db, coll)));
    PutBack(c, db, coll, keys, meta);
    var c1 := Put(DropKeys(c, keys), CollectionDoc(db, coll, meta));
    var part := PartitionDoc(db, coll, DEFAULT_PARTITION, PartitionKind(DEFAULT_PARTITION));
    PutHas(c1, part);
    PutOnCollection(c1, part);
    PutOnCollection(Put(c1, part), LoadDoc(db, coll, false, "collection", [], 1));
  }

  lemma PutBack(c: Catalog, db: string, coll: string, keys: seq<DocKey>, meta: string)
    requires Integrity(c) && Has(c, DatabaseKey(db)) && CollectionKey(db, coll) in keys
    requires forall d <- c :: KeyOf(d) in keys ==> Belongs(d, db, coll)
    ensures var c1 := Put(DropKeys(c, keys), CollectionDoc(db, coll, meta));
            Integrity(c1) && Has(c1, CollectionKey(db, coll))
    ensures Has(DropKeys(c, keys), DatabaseKey(db)) && !Has(DropKeys(c, keys), CollectionKey(db, coll))
  {
  }

  /** A collection just created. */
  function NewA(meta: string): Catalog {
    {DatabaseDoc("default"), CollectionDoc("default", "a", meta), PartitionDoc("default", "a", "_default", "default_dir"),
     LoadDoc("default", "a", false, "collection", [], 1)}
  }

  const DROP_A := OpDropCollection("default", "a", true)
  const RENAME_A := OpRename("default", "a", "b", true)
  const ORDER_A := Order([PartitionKey("default", "a", "_default")], [], [], [PartitionDoc("default", "b", "_default", "default_dir")], [])

  lemma NewAHas(meta: string)
    ensures Integrity(NewA(meta))
    ensures forall key :: Has(NewA(meta), key) <==> key in {DatabaseKey("default"), CollectionKey("default", "a"),
                                                            PartitionKey("default", "a", "_default"), LoadKey("default", "a")}
    ensures forall key :: Stored(NewA(meta), "default", "a", key) <==> key in {CollectionKey("default", "a"),
                                                            PartitionKey("default", "a", "_default"), LoadKey("default", "a")}
  {
  }

  lemma NewAOrdered(meta: string)
    ensures Ordered(NewA(meta), DROP_A, ORDER_A) && Apply(NewA(meta), DROP_A).error.None?
    ensures Ordered(NewA(meta), RENAME_A, ORDER_A) && Apply(NewA(meta), RENAME_A).error.None?
  {
    var c := NewA(meta);
    hide Stored, Has, Integrity, Relabelled;
    NewAHas(meta);
    assert ValidName("b");
    NewACopies(meta);
  }

  lemma NewACopies(meta: string)
    ensures Has(NewA(meta), CollectionKey("default", "a")) && ListsCopies(NewA(meta), "default", "a", "b", ORDER_A)
  {
    NewAHas(meta);
    NewALists(meta);
    hide NewA, Has, ListPartitions, ListIndexes;
  }

  lemma NewALists(meta: string)
    ensures ListPartitions(NewA(meta), "default", "a") == {"_default"}
    ensures ListIndexes(NewA(meta), "default", "a") == {}
  {
  }

  /** Inputs: the drop and the rename of that collection, stopped after the first delete. */
  lemma HalfRemovalBreaks(meta: string)
    ensures var c := NewA(meta);
            && Integrity(c) && Ordered(c, DROP_A, ORDER_A) && Ordered(c, RENAME_A, ORDER_A)
            && Integrity(Apply(c, DROP_A).c) && !Integrity(RunCut(c, Cut(DROP_A, ORDER_A, 1)))
            && Integrity(Apply(c, RENAME_A).c) && !Integrity(RunCut(c, Cut(RENAME_A, ORDER_A, 1)))
            && !Has(RunCut(c, Cut(RENAME_A, ORDER_A, 1)), CollectionKey("default", "a"))
            && !Has(RunCut(c, Cut(RENAME_A, ORDER_A, 1)), CollectionKey("default", "b"))
  {
    var c := NewA(meta);
    NewAHas(meta);
    NewAOrdered(meta);
    ApplyKeepsIntegrity(c, DROP_A);
    ApplyKeepsIntegrity(c, RENAME_A);
    HalfBreaks(c, DROP_A, ORDER_A, PartitionDoc("default", "a", "_default", "default_dir"));
    HalfBreaks(c, RENAME_A, ORDER_A, PartitionDoc("default", "a", "_default", "default_dir"));
    RenameLosesIff(c, RENAME_A, ORDER_A, 1);
  }

  /** Whenever some document needs the collection, the first write is too much. */
  lemma HalfBreaks(c: Catalog, op: Op, o: Order, d: Doc)
    requires Integrity(c) && Ordered(c, op, o) && Removes(op) && Apply(c, op).error.None?
    requires d in c && Leans(d, op.db, Target(c, op))
    ensures Stop(c, Cut(op, o, 1)) == 1 && !Integrity(RunCut(c, Cut(op, o, 1)))
  {
    hide Replace, Ordered, Integrity, Apply;
    CutInDeletes(c, op, o, 1);
    assert Removal(c, op, o)[..1] == [CollectionKey(op.db, Target(c, op))];
  }

  // ---------- whole runs ----------

  /** An operation that stops after n of its writes; all of them when it runs to its end. */
  datatype Cut = Cut(op: Op, order: Order, n: nat)

  /** How many writes it does. */
  ghost function Stop(c: Catalog, x: Cut): (n: nat)
    ensures n <= |Writes(c, x.op, x.order)|
  {
    var ws := Writes(c, x.op, x.order);
    if x.n < |ws| then x.n else |ws|
  }

  ghost function RunCut(c: Catalog, x: Cut): Catalog {
    DoAll(c, Writes(c, x.op, x.order)[..Stop(c, x)])
  }

  ghost function RunCuts(c: Catalog, cuts: seq<Cut>): Catalog {
    if cuts == [] then c else RunCut(RunCuts(c, cuts[..|cuts| - 1]), cuts[|cuts| - 1])
  }

  ghost predicate HarmlessCut(c: Catalog, x: Cut) {
    Harmless(c, x.op, x.order, Stop(c, x))
  }

  /** The lists of every removal are read from the catalog it finds. */
  ghost predicate OrderedRun(c: Catalog, cuts: seq<Cut>) {
    forall i | 0 <= i < |cuts| :: Ordered(RunCuts(c, cuts[..i]), cuts[i].op, cuts[i].order)
  }

  /** Over any run of operations, each of which may stop after any of its
      writes, every catalog has referential integrity exactly when every stop is
      harmless. */
  lemma IntegrityUnderCutsIff(c: Catalog, cuts: seq<Cut>)
    requires Integrity(c) && OrderedRun(c, cuts)
    ensures (forall i | 0 <= i <= |cuts| :: Integrity(RunCuts(c, cuts[..i])))
            <==> forall i | 0 <= i < |cuts| :: HarmlessCut(RunCuts(c, cuts[..i]), cuts[i])
  {
    hide Integrity, HarmlessCut, OrderedRun, RunCuts;
    if forall i | 0 <= i <= |cuts| :: Integrity(RunCuts(c, cuts[..i])) {
      forall i | 0 <= i < |cuts| ensures HarmlessCut(RunCuts(c, cuts[..i]), cuts[i]) {
        NextCutIff(c, cuts, i);
      }
    }
    if forall i | 0 <= i < |cuts| :: HarmlessCut(RunCuts(c, cuts[..i]), cuts[i]) {
      forall i | 0 <= i <= |cuts| ensures Integrity(RunCuts(c, cuts[..i])) {
        HarmlessCutsKeep(c, cuts, i);
      }
    }
  }

  lemma {:induction false} HarmlessCutsKeep(c: Catalog, cuts: seq<Cut>, i: nat)
    requires Integrity(c) && OrderedRun(c, cuts) && i <= |cuts|
    requires forall k | 0 <= k < i :: HarmlessCut(RunCuts(c, cuts[..k]), cuts[k])
    ensures Integrity(RunCuts(c, cuts[..i]))
  {
    hide Integrity, HarmlessCut, OrderedRun;
    if i == 0 {
      assert cuts[..0] == [];
    } else {
      HarmlessCutsKeep(c, cuts, i - 1);
      NextCutIff(c, cuts, i - 1);
    }
  }

  lemma NextCutIff(c: Catalog, cuts: seq<Cut>, i: nat)
    requires OrderedRun(c, cuts) && i < |cuts| && Integrity(RunCuts(c, cuts[..i]))
    ensures Integrity(RunCuts(c, cuts[..i + 1])) <==> HarmlessCut(RunCuts(c, cuts[..i]), cuts[i])
  {
    hide Integrity, HarmlessCut, Ordered, RunCut;
    assert cuts[..i + 1][..i] == cuts[..i];
    OneCutIff(RunCuts(c, cuts[..i]), cuts[i]);
  }

  lemma OneCutIff(c: Catalog, x: Cut)
    requires Integrity(c) && Ordered(c, x.op, x.order)
    ensures Integrity(RunCut(c, x)) <==> HarmlessCut(c, x)
  {
    CutKeepsIntegrityIff(c, x.op, x.order, Stop(c, x));
  }
}
