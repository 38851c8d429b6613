/** What every catalog operation leaves behind, document by document: when it
    succeeds, with which error it fails, and that nothing else changes. */
module CatalogEffects {
  import opened Wrappers
  import opened Naming
  import opened Relations
  import opened CatalogIntegrity

  // ---------- in terms of documents ----------

  ghost predicate IsDatabase(c: Catalog, db: string) {
    DatabaseDoc(db) in c
  }

  ghost predicate IsCollection(c: Catalog, db: string, coll: string) {
    exists meta :: CollectionDoc(db, coll, meta) in c
  }

  ghost predicate IsPartition(c: Catalog, db: string, coll: string, part: string) {
    exists kind :: PartitionDoc(db, coll, part, kind) in c
  }

  ghost predicate IsAlias(c: Catalog, db: string, alias: string) {
    exists coll :: AliasDoc(db, alias, coll) in c
  }

  /** An index whose name has the same spelling in its id. */
  ghost predicate IsIndex(c: Catalog, db: string, coll: string, index: string) {
    exists d <- c :: d.IndexDoc? && d.db == db && d.coll == coll && Replace(d.index) == Replace(index)
  }

  /** What a name stands for: the collection so called, else what the alias so
      called points to, else itself. */
  ghost predicate StandsFor(c: Catalog, db: string, name: string, coll: string) {
    if IsCollection(c, db, name) || !IsAlias(c, db, name) then coll == name else AliasDoc(db, name, coll) in c
  }

  ghost predicate Refused(s: Step, c: Catalog, e: Error) {
    s == Step(c, Some(e))
  }

  /** The document is in, in place of what had its key; nothing else changes. */
  ghost predicate Stores(c: Catalog, c': Catalog, d: Doc) {
    forall e :: e in c' <==> e == d || (e in c && KeyOf(e) != KeyOf(d))
  }

  ghost predicate Removes(c: Catalog, c': Catalog, key: DocKey) {
    forall e :: e in c' <==> e in c && KeyOf(e) != key
  }

  lemma Exists(c: Catalog, db: string, name: string)
    ensures Has(c, DatabaseKey(db)) <==> IsDatabase(c, db)
    ensures Has(c, CollectionKey(db, name)) <==> IsCollection(c, db, name)
    ensures Has(c, AliasKey(db, name)) <==> IsAlias(c, db, name)
  {
    hide Replace;
    if IsDatabase(c, db) {
      assert KeyOf(DatabaseDoc(db)) == DatabaseKey(db);
    }
    if meta :| CollectionDoc(db, name, meta) in c {
      assert KeyOf(CollectionDoc(db, name, meta)) == CollectionKey(db, name);
    }
    if coll :| AliasDoc(db, name, coll) in c {
      assert KeyOf(AliasDoc(db, name, coll)) == AliasKey(db, name);
    }
  }

  lemma ExistsIn(c: Catalog, db: string, coll: string, name: string)
    ensures Has(c, PartitionKey(db, coll, name)) <==> IsPartition(c, db, coll, name)
    ensures Has(c, IndexKey(db, coll, Replace(name))) <==> IsIndex(c, db, coll, name)
  {
    hide Replace;
    if kind :| PartitionDoc(db, coll, name, kind) in c {
      assert KeyOf(PartitionDoc(db, coll, name, kind)) == PartitionKey(db, coll, name);
    }
    if d :| d in c && d.IndexDoc? && d.db == db && d.coll == coll && Replace(d.index) == Replace(name) {
      assert KeyOf(d) == IndexKey(db, coll, Replace(name));
    }
  }

  lemma Resolves(c: Catalog, db: string, name: string, coll: string)
    requires Keyed(c) && StandsFor(c, db, name, coll)
    ensures Resolve(c, db, name) == coll
  {
    hide Replace;
    Exists(c, db, name);
    if !IsCollection(c, db, name) && IsAlias(c, db, name) {
      var t := AliasTarget(c, db, name);
      assert KeyOf(AliasDoc(db, name, t)) == KeyOf(AliasDoc(db, name, coll));
    }
  }

  // ---------- databases ----------

  lemma CreateDatabaseLeaves(c: Catalog, db: string)
    ensures var s := CreateDatabase(c, db);
            if !ValidName(db) then Refused(s, c, ParamError)
            else if IsDatabase(c, db) then Refused(s, c, AlreadyExists)
            else s.error == None && Stores(c, s.c, DatabaseDoc(db))
  {
    hide Replace, ValidName;
    Exists(c, db, db);
  }

  /** A database goes only when it is empty, and the default one never. */
  lemma DropDatabaseLeaves(c: Catalog, db: string)
    ensures var s := DropDatabase(c, db);
            if !ValidName(db) || db == "default" then Refused(s, c, ParamError)
            else if !IsDatabase(c, db) then Refused(s, c, NotFound)
            else if exists coll :: IsCollection(c, db, coll) then Refused(s, c, ParamError)
            else s.error == None && Removes(c, s.c, DatabaseKey(db))
  {
    hide Replace, ValidName;
    Exists(c, db, db);
    if coll :| IsCollection(c, db, coll) {
      assert coll in ListCollections(c, db);
    }
    assert forall d <- c :: d.CollectionDoc? ==> IsCollection(c, d.db, d.coll);
  }

  // ---------- collections ----------

  /** The three documents of a new collection; two when its directory fails. */
  lemma CreateCollectionLeaves(c: Catalog, db: string, coll: string, meta: string, filesOk: bool)
    ensures var s := CreateCollection(c, db, coll, meta, filesOk);
            if !ValidName(coll) then Refused(s, c, ParamError)
            else if !IsDatabase(c, db) then Refused(s, c, NotFound)
            else if IsCollection(c, db, coll) then Refused(s, c, AlreadyExists)
            else if !ValidName(db) then Refused(s, c, ParamError)
            else
              var part, load := PartitionDoc(db, coll, "_default", "default_dir"), LoadDoc(db, coll, false, "collection", [], 1);
              && s.error == (if filesOk then None else Some(FilesFailed))
              && forall e :: e in s.c <==>
                   || e == CollectionDoc(db, coll, meta) || e == part || (filesOk && e == load)
                   || (e in c && KeyOf(e) != CollectionKey(db, coll) && KeyOf(e) != KeyOf(part) && (filesOk ==> KeyOf(e) != KeyOf(load)))
  {
    hide Replace, ValidName;
    Exists(c, db, coll);
  }

  /** The documents of a collection: its own, and those that name it. */
  ghost predicate Mentions(d: Doc, db: string, coll: string) {
    || (exists meta :: d == CollectionDoc(db, coll, meta))
    || (exists part, kind :: d == PartitionDoc(db, coll, part, kind))
    || (exists alias :: d == AliasDoc(db, alias, coll))
    || (d.IndexDoc? && d.db == db && d.coll == coll)
    || (d.LoadDoc? && d.db == db && d.coll == coll)
  }

  lemma DropCollectionLeaves(c: Catalog, db: string, name: string, coll: string, filesOk: bool)
    requires Keyed(c) && StandsFor(c, db, name, coll)
    ensures var s := DropCollection(c, db, name, filesOk);
            if !IsCollection(c, db, coll) then Refused(s, c, NotFound)
            else if !filesOk then Refused(s, c, FilesFailed)
            else s.error == None && forall e :: e in s.c <==> e in c && !Mentions(e, db, coll)
  {
    Resolves(c, db, name, coll);
    Exists(c, db, coll);
    assert forall d :: Mentions(d, db, coll) <==> Belongs(d, db, coll);
  }

  lemma RenameFailsIff(c: Catalog, db: string, coll: string, to: string, filesOk: bool)
    ensures var s := RenameCollection(c, db, coll, to, filesOk);
            if !ValidName(to) then Refused(s, c, ParamError)
            else if !IsCollection(c, db, coll) then Refused(s, c, NotFound)
            else if IsCollection(c, db, to) then Refused(s, c, AlreadyExists)
            else if !filesOk then Refused(s, c, FilesFailed)
            else s.error == None
  {
    hide ValidName, Relabelled, PutAll, RemoveCollection;
    Exists(c, db, coll);
    Exists(c, db, to);
  }

  /** A rename gives each partition, the default one included, a document of its kind. */
  lemma RenameKinds(c: Catalog, db: string, coll: string, to: string, part: string, kind: string)
    requires Integrity(c) && Renames(c, db, coll, to)
    ensures PartitionDoc(db, to, part, kind) in RenameCollection(c, db, coll, to, true).c
       <==> && (part == "_default" || IsPartition(c, db, coll, part))
            && kind == if part == "_default" then "default_dir" else "explicit_dir"
  {
    hide Replace, ValidName;
    hide ListPartitions;
    var d := PartitionDoc(db, to, part, kind);
    var c1, ds := RemoveCollection(c, db, coll), Relabelled(c, db, coll, to);
    Exists(c, db, coll);
    Partitions(c, db, coll, part);
    assert d in c ==> Anchored(c, d);
    assert d in PutAll(c1, ds) <==> d in ds;
    assert d in ds <==> part in ListPartitions(c, db, coll) && kind == PartitionKind(part);
  }

  lemma Partitions(c: Catalog, db: string, coll: string, part: string)
    ensures part in ListPartitions(c, db, coll) <==> IsPartition(c, db, coll, part) || (part == "_default" && IsCollection(c, db, coll))
  {
    hide Replace;
    Exists(c, db, coll);
    if kind :| PartitionDoc(db, coll, part, kind) in c {
      assert PartitionDoc(db, coll, part, kind).part in ListPartitions(c, db, coll);
    }
  }

  /** The load state moves as it is, but a replica number 0, which no request can
      store, would become 1. */
  lemma RenameLoads(c: Catalog, db: string, coll: string, to: string)
    requires Integrity(c) && Renames(c, db, coll, to)
    ensures var was := LoadState(c, db, coll);
            LoadState(RenameCollection(c, db, coll, to, true).c, db, to)
            == LoadDoc(db, to, was.loaded, was.scope, was.parts, if was.replicas == 0 then 1 else was.replicas)
  {
    hide Replace, ValidName;
    var d := MoveLoad(LoadState(c, db, coll), to);
    assert d in Relabelled(c, db, coll, to);
    RenameKeepsIntegrity(c, db, coll, to);
    LoadStateIs(Renamed(c, db, coll, to), d);
  }

  // ---------- load states ----------

  ghost predicate Loads(s: Step, c: Catalog, d: Doc)
    requires d.LoadDoc?
  {
    s.error == None && Stores(c, s.c, d) && LoadState(s.c, d.db, d.coll) == d
  }

  lemma PutLoads(c: Catalog, d: Doc)
    requires Keyed(c) && d.LoadDoc?
    ensures Loads(Ok(Put(c, d)), c, d)
  {
    hide Replace;
    LoadStateIs(Put(c, d), d);
  }

  lemma LoadCollectionLeaves(c: Catalog, db: string, name: string, coll: string, replicas: ReplicaNumber)
    requires Keyed(c) && StandsFor(c, db, name, coll)
    ensures var s := LoadCollection(c, db, name, replicas);
            if IsCollection(c, db, coll) then Loads(s, c, LoadDoc(db, coll, true, "collection", [], replicas)) else Refused(s, c, NotFound)
  {
    hide Put, Loads;
    Resolves(c, db, name, coll);
    Exists(c, db, coll);
    PutLoads(c, LoadDoc(db, coll, true, "collection", [], replicas));
  }

  lemma ReleaseCollectionLeaves(c: Catalog, db: string, name: string, coll: string)
    requires Keyed(c) && StandsFor(c, db, name, coll)
    ensures var s := ReleaseCollection(c, db, name);
            if IsCollection(c, db, coll) then Loads(s, c, LoadDoc(db, coll, false, "collection", [], 1)) else Refused(s, c, NotFound)
  {
    hide Put, Loads;
    Resolves(c, db, name, coll);
    Exists(c, db, coll);
    PutLoads(c, LoadDoc(db, coll, false, "collection", [], 1));
  }

  /** Loading partitions leaves the collection loaded, with these partitions. */
  lemma LoadPartitionsLeaves(c: Catalog, db: string, name: string, coll: string, parts: seq<string>)
    requires Keyed(c) && StandsFor(c, db, name, coll)
    ensures var s := LoadPartitions(c, db, name, parts);
            if IsCollection(c, db, coll) then Loads(s, c, LoadDoc(db, coll, true, "partition", parts, 1)) else Refused(s, c, NotFound)
  {
    hide Put, Loads;
    Resolves(c, db, name, coll);
    Exists(c, db, coll);
    PutLoads(c, LoadDoc(db, coll, true, "partition", parts, 1));
  }

  /** Every partition of the collection is among these; the default one counts
      whether or not it has a document. */
  ghost predicate NamesAll(c: Catalog, db: string, coll: string, parts: seq<string>) {
    && (forall part | IsPartition(c, db, coll, part) :: part in parts)
    && (IsCollection(c, db, coll) ==> "_default" in parts)
  }

  /** Releasing partitions unloads the collection when it names all of them or
      none, and otherwise leaves the catalog as it is.  It never fails. */
  lemma ReleasePartitionsLeaves(c: Catalog, db: string, name: string, coll: string, parts: seq<string>)
    requires Keyed(c) && StandsFor(c, db, name, coll)
    ensures var s := ReleasePartitions(c, db, name, parts);
            if parts == [] || NamesAll(c, db, coll, parts) then Loads(s, c, LoadDoc(db, coll, false, "collection", [], 1))
            else s == Step(c, None)
  {
    hide Put, Loads, Replace;
    Resolves(c, db, name, coll);
    Exists(c, db, coll);
    PutLoads(c, LoadDoc(db, coll, false, "collection", [], 1));
    forall part ensures part in ListPartitions(c, db, coll) <==> IsPartition(c, db, coll, part) || (part == "_default" && IsCollection(c, db, coll)) {
      Partitions(c, db, coll, part);
    }
  }

  // ---------- partitions ----------

  lemma CreatePartitionLeaves(c: Catalog, db: string, name: string, coll: string, part: string, filesOk: bool)
    requires Keyed(c) && StandsFor(c, db, name, coll)
    ensures var s := CreatePartition(c, db, name, part, filesOk);
            if !ValidName(part) || part == "_default" then Refused(s, c, ParamError)
            else if !IsCollection(c, db, coll) then Refused(s, c, NotFound)
            else if IsPartition(c, db, coll, part) then Refused(s, c, AlreadyExists)
            else s.error == (if filesOk then None else Some(FilesFailed)) && Stores(c, s.c, PartitionDoc(db, coll, part, "explicit_dir"))
  {
    hide Replace, ValidName, Resolve;
    Resolves(c, db, name, coll);
    Exists(c, db, coll);
    ExistsIn(c, db, coll, part);
  }

  lemma DropPartitionLeaves(c: Catalog, db: string, name: string, coll: string, part: string, filesOk: bool)
    requires Keyed(c) && StandsFor(c, db, name, coll)
    ensures var s := DropPartition(c, db, name, part, filesOk);
            if part == "_default" then Refused(s, c, ParamError)
            else if !IsPartition(c, db, coll, part) then Refused(s, c, NotFound)
            else if !filesOk then Refused(s, c, FilesFailed)
            else s.error == None && Removes(c, s.c, PartitionKey(db, coll, part))
  {
    hide Replace, Resolve;
    Resolves(c, db, name, coll);
    ExistsIn(c, db, coll, part);
  }

  // ---------- aliases ----------

  /** An alias may take neither the name of an alias nor that of a collection. */
  lemma CreateAliasLeaves(c: Catalog, db: string, alias: string, coll: string)
    ensures var s := CreateAlias(c, db, alias, coll);
            if !ValidName(alias) then Refused(s, c, ParamError)
            else if !IsCollection(c, db, coll) then Refused(s, c, NotFound)
            else if IsAlias(c, db, alias) || IsCollection(c, db, alias) then Refused(s, c, AlreadyExists)
            else s.error == None && Stores(c, s.c, AliasDoc(db, alias, coll))
  {
    hide Replace, ValidName;
    Exists(c, db, coll);
    Exists(c, db, alias);
  }

  lemma AlterAliasLeaves(c: Catalog, db: string, alias: string, coll: string)
    ensures var s := AlterAlias(c, db, alias, coll);
            if !IsAlias(c, db, alias) || !IsCollection(c, db, coll) then Refused(s, c, NotFound)
            else s.error == None && Stores(c, s.c, AliasDoc(db, alias, coll))
  {
    hide Replace;
    Exists(c, db, coll);
    Exists(c, db, alias);
  }

  lemma DropAliasLeaves(c: Catalog, db: string, alias: string)
    ensures var s := DropAlias(c, db, alias);
            if !IsAlias(c, db, alias) then Refused(s, c, NotFound) else s.error == None && Removes(c, s.c, AliasKey(db, alias))
  {
    hide Replace;
    Exists(c, db, alias);
  }

  // ---------- indexes ----------

  lemma CreateIndexLeaves(c: Catalog, db: string, name: string, coll: string, index: string, field: string, itype: string,
                          metric: string, params: map<string, string>, paramsOk: bool, rebuildOk: bool)
    requires Keyed(c) && StandsFor(c, db, name, coll)
    ensures var s := CreateIndex(c, db, name, index, field, itype, metric, params, paramsOk, rebuildOk);
            if !IsCollection(c, db, coll) then Refused(s, c, NotFound)
            else if !paramsOk then Refused(s, c, ParamError)
            else s.error == (if rebuildOk then None else Some(FilesFailed)) && Stores(c, s.c, IndexDoc(db, coll, index, field, itype, metric, params))
  {
    hide Replace, Resolve;
    Resolves(c, db, name, coll);
    Exists(c, db, coll);
  }

  lemma DropIndexLeaves(c: Catalog, db: string, name: string, coll: string, index: string)
    requires Keyed(c) && StandsFor(c, db, name, coll)
    ensures var s := DropIndex(c, db, name, index);
            if index == "" then Refused(s, c, ParamError)
            else if !IsIndex(c, db, coll, index) then Refused(s, c, NotFound)
            else s.error == None && Removes(c, s.c, IndexKey(db, coll, Replace(index)))
  {
    hide Replace, Resolve;
    Resolves(c, db, name, coll);
    ExistsIn(c, db, coll, index);
  }
}
