/** The catalog and the services on top of it, as they work on the flat store.
    Every method is proved to be the relational operation of the same name, and
    to do it by exactly the writes that CatalogSteps.dfy lists, in their order. */
module CatalogService {
  import opened Wrappers
  import opened Naming
  import R = Relations
  import S = CatalogSteps
  import opened FlatStore
  import MetaStore

  /** A name that may stand in front of others in a key. */
  ghost predicate Good(name: string) {
    Clean(name) && '/' !in name
  }

  /** What validation and the naming hypothesis give for each stored document. */
  ghost predicate GoodDoc(d: R.Doc) {
    && CleanKey(R.KeyOf(d))
    && (d.CollectionDoc? ==> Good(d.coll) && ValidName(d.db) && ValidName(d.coll))
    && (d.PartitionDoc? ==> ValidName(d.part))
    && (d.AliasDoc? ==> Good(d.coll))
  }

  // ---------- documents that may be stored ----------

  lemma GoodPartition(db: string, coll: string, part: string)
    requires Good(db) && Good(coll) && '/' !in part && ValidName(part)
    ensures CleanKey(R.PartitionKey(db, coll, part)) && GoodDoc(R.PartitionDoc(db, coll, part, R.PartitionKind(part)))
  {
  }

  lemma GoodLoad(d: R.Doc)
    requires d.LoadDoc? && Good(d.db) && Good(d.coll)
    ensures CleanKey(R.KeyOf(d)) && GoodDoc(d)
  {
  }

  lemma GoodIndex(d: R.Doc)
    requires d.IndexDoc? && Good(d.db) && Good(d.coll)
    ensures CleanKey(R.KeyOf(d)) && GoodDoc(d)
  {
    NoSlashLeft(d.index);
  }

  lemma GoodCollection(d: R.Doc, to: string)
    requires GoodDoc(d) && d.CollectionDoc? && Good(d.db) && Good(to) && ValidName(to)
    ensures GoodDoc(R.CollectionDoc(d.db, to, d.meta))
  {
  }

  lemma PartNameGood(c: R.Catalog, db: string, coll: string, p: string)
    requires (forall d <- c :: GoodDoc(d)) && p in R.ListPartitions(c, db, coll)
    ensures '/' !in p && ValidName(p)
  {
  }

  /** The partitions and indexes that a rename moves may be stored. */
  lemma MovedGood(c: R.Catalog, db: string, coll: string, to: string)
    requires (forall d <- c :: GoodDoc(d)) && Good(db) && Good(to)
    ensures forall p <- R.ListPartitions(c, db, coll) :: GoodDoc(R.PartitionDoc(db, to, p, R.PartitionKind(p)))
    ensures forall d <- R.ListIndexes(c, db, coll) :: GoodDoc(R.MoveIndex(d, to))
  {
    forall p | p in R.ListPartitions(c, db, coll) ensures GoodDoc(R.PartitionDoc(db, to, p, R.PartitionKind(p))) {
      PartNameGood(c, db, coll, p);
      GoodPartition(db, to, p);
    }
    forall d | d in R.ListIndexes(c, db, coll) ensures GoodDoc(R.MoveIndex(d, to)) {
      GoodIndex(R.MoveIndex(d, to));
    }
  }

  /** The type in a document tells its kind. */
  lemma KindsAre(ds: seq<R.Doc>, docType: string)
    requires forall d <- ds :: GoodDoc(d) && TypeName(R.KeyOf(d)) == docType
    ensures forall d <- ds :: docType == DOC_COLLECTION ==> d.CollectionDoc?
    ensures forall d <- ds :: docType == DOC_PARTITION ==> d.PartitionDoc?
    ensures forall d <- ds :: docType == DOC_INDEX ==> d.IndexDoc?
    ensures forall d <- ds :: docType == DOC_ALIAS ==> d.AliasDoc?
  {
  }

  lemma NoneDeleted(c: R.Catalog)
    ensures S.DropKeys(c, []) == c && S.Deletes([]) == []
  {
  }

  lemma OneMoreDeleted(c: R.Catalog, keys: seq<R.DocKey>, i: nat)
    requires i < |keys|
    ensures S.DropKeys(c, keys[..i + 1]) == R.Delete(S.DropKeys(c, keys[..i]), keys[i])
    ensures S.Deletes(keys[..i + 1]) == S.Deletes(keys[..i]) + [S.DeleteKey(keys[i])]
  {
  }

  lemma OneMorePut(ds: seq<R.Doc>, i: nat)
    requires i < |ds|
    ensures S.Puts(ds[..i + 1]) == S.Puts(ds[..i]) + [S.PutDoc(ds[i])]
  {
  }

  lemma MetaIs(c: R.Catalog, d: R.Doc)
    requires R.Keyed(c) && d in c && d.CollectionDoc?
    ensures R.Has(c, R.KeyOf(d)) && R.MetaOf(c, d.db, d.coll) == d.meta
  {
  }

  /** The loops over the documents of one type. */
  method PartsIn(ds: seq<R.Doc>, db: string, coll: string) returns (parts: seq<string>)
    requires forall d <- ds :: d.PartitionDoc?
    ensures forall p :: p in parts <==> exists d <- ds :: d.PartitionDoc? && d.db == db && d.coll == coll && d.part == p
  {
    parts := [];
    for i := 0 to |ds|
      invariant forall p :: p in parts <==> exists d <- ds[..i] :: d.PartitionDoc? && d.db == db && d.coll == coll && d.part == p
    {
      assert ds[..i + 1] == ds[..i] + [ds[i]];
      if ds[i].db == db && ds[i].coll == coll {
        parts := parts + [ds[i].part];
      }
    }
    assert ds[..|ds|] == ds;
  }

  method CollectionsIn(ds: seq<R.Doc>, db: string) returns (names: seq<string>)
    requires forall d <- ds :: d.CollectionDoc?
    ensures forall n :: n in names <==> exists d <- ds :: d.CollectionDoc? && d.db == db && d.coll == n
  {
    names := [];
    for i := 0 to |ds|
      invariant forall n :: n in names <==> exists d <- ds[..i] :: d.CollectionDoc? && d.db == db && d.coll == n
    {
      assert ds[..i + 1] == ds[..i] + [ds[i]];
      if ds[i].db == db {
        names := names + [ds[i].coll];
      }
    }
    assert ds[..|ds|] == ds;
  }

  method IndexesIn(ds: seq<R.Doc>, db: string, coll: string) returns (indexes: seq<R.Doc>)
    requires forall d <- ds :: d.IndexDoc?
    ensures forall d :: d in indexes <==> d in ds && d.db == db && d.coll == coll
  {
    indexes := [];
    for i := 0 to |ds|
      invariant forall d :: d in indexes <==> d in ds[..i] && d.db == db && d.coll == coll
    {
      if ds[i].db == db && ds[i].coll == coll {
        indexes := indexes + [ds[i]];
      }
    }
  }

  method AliasesIn(ds: seq<R.Doc>, db: string) returns (aliases: seq<R.Doc>)
    requires forall d <- ds :: d.AliasDoc?
    ensures forall d :: d in aliases <==> d in ds && d.db == db
  {
    aliases := [];
    for i := 0 to |ds|
      invariant forall d :: d in aliases <==> d in ds[..i] && d.db == db
    {
      if ds[i].db == db {
        aliases := aliases + [ds[i]];
      }
    }
  }

  /** The aliases of one collection among those of a database. */
  method AliasesOf(aliases: seq<R.Doc>, db: string, coll: string) returns (keys: seq<R.DocKey>)
    requires forall d <- aliases :: d.AliasDoc? && d.db == db
    ensures forall k :: k in keys <==> k.AliasKey? && k.db == db && R.AliasDoc(db, k.alias, coll) in aliases
  {
    keys := [];
    for i := 0 to |aliases|
      invariant forall k :: k in keys <==> k.AliasKey? && k.db == db && R.AliasDoc(db, k.alias, coll) in aliases[..i]
    {
      if aliases[i].coll == coll {
        assert aliases[i] == R.AliasDoc(db, aliases[i].alias, coll);
        keys := keys + [R.AliasKey(db, aliases[i].alias)];
      }
    }
    assert aliases[..|aliases|] == aliases;
  }

  class CatalogService {
    const store: MetaStore.MetaStore

    /** The catalog found at the start, and every write since. */
    ghost const base: R.Catalog
    ghost var writes: seq<S.Write>

    constructor (store: MetaStore.MetaStore)
      ensures this.store == store && base == Rel() && writes == []
    {
      this.store := store;
      base := Rows(store.docs);
      writes := [];
    }

    /** The catalog as a set of documents. */
    function Rel(): R.Catalog
      reads store
    {
      Rows(store.docs)
    }

    ghost predicate Valid()
      reads this, store, store.files
    {
      store.InSync() && Filed(store.docs) && Rel() == S.DoAll(base, writes) && forall d <- Rel() :: GoodDoc(d)
    }

    // ---------- documents ----------

    method PutDoc(d: R.Doc)
      requires Valid() && GoodDoc(d)
      modifies this, store, store.files
      ensures Valid() && Rel() == R.Put(old(Rel()), d) && writes == old(writes) + [S.PutDoc(d)]
    {
      StoreRefines(store.docs, d);
      var _ := store.Upsert(IdOf(R.KeyOf(d)), d, true, MetaStore.FLUSHED);
      writes := writes + [S.PutDoc(d)];
    }

    method DeleteDoc(key: R.DocKey)
      requires Valid() && CleanKey(key)
      modifies this, store, store.files
      ensures Valid() && Rel() == R.Delete(old(Rel()), key) && writes == old(writes) + [S.DeleteKey(key)]
    {
      RemoveRefines(store.docs, key);
      var _ := store.Delete(IdOf(key), true, MetaStore.FLUSHED);
      writes := writes + [S.DeleteKey(key)];
    }

    method FindDoc(key: R.DocKey) returns (r: Option<R.Doc>)
      requires Valid() && CleanKey(key)
      modifies store
      ensures Valid() && store.docs == old(store.docs)
      ensures r.Some? <==> R.Has(Rel(), key)
      ensures r.Some? ==> r.value in Rel() && R.KeyOf(r.value) == key
    {
      LookupRefines(store.docs, key);
      var found := store.Get(IdOf(key));
      r := found.value;
    }

    method DeleteEach(keys: seq<R.DocKey>)
      requires Valid() && forall key <- keys :: CleanKey(key)
      modifies this, store, store.files
      ensures Valid() && Rel() == S.DropKeys(old(Rel()), keys) && writes == old(writes) + S.Deletes(keys)
    {
      hide Valid, Rows, CleanKey, S.Deletes, S.DropKeys;
      NoneDeleted(Rel());
      for i := 0 to |keys|
        invariant Valid() && Rel() == S.DropKeys(old(Rel()), keys[..i]) && writes == old(writes) + S.Deletes(keys[..i])
      {
        DeleteDoc(keys[i]);
        OneMoreDeleted(old(Rel()), keys, i);
      }
      assert keys[..|keys|] == keys;
    }

    method PutEach(ds: seq<R.Doc>)
      requires Valid() && forall d <- ds :: GoodDoc(d)
      modifies this, store, store.files
      ensures Valid() && writes == old(writes) + S.Puts(ds)
    {
      hide Valid, Rows, GoodDoc, S.Puts;
      for i := 0 to |ds|
        invariant Valid() && writes == old(writes) + S.Puts(ds[..i])
      {
        PutDoc(ds[i]);
        OneMorePut(ds, i);
      }
      assert ds[..|ds|] == ds;
    }

    /** Every document of one type. */
    method ListDocs(docType: string) returns (ds: seq<R.Doc>)
      requires Valid()
      modifies store
      ensures Valid() && store.docs == old(store.docs)
      ensures forall d :: d in ds <==> d in Rel() && TypeName(R.KeyOf(d)) == docType
    {
      var r := store.ListByType(docType);
      ds := r.value;
    }

    // ---------- the put/get families of the catalog ----------

    method GetDatabase(db: string) returns (r: Option<R.Doc>)
      requires Valid() && '/' !in db
      modifies store
      ensures Valid() && store.docs == old(store.docs) && (r.Some? <==> R.Has(Rel(), R.DatabaseKey(db)))
    {
      r := FindDoc(R.DatabaseKey(db));
    }

    method GetCollection(db: string, coll: string) returns (r: Option<R.Doc>)
      requires Valid() && Good(db) && '/' !in coll
      modifies store
      ensures Valid() && store.docs == old(store.docs)
      ensures r.Some? <==> R.Has(Rel(), R.CollectionKey(db, coll))
      ensures r.Some? ==> r.value in Rel() && R.KeyOf(r.value) == R.CollectionKey(db, coll)
    {
      r := FindDoc(R.CollectionKey(db, coll));
    }

    method GetPartition(db: string, coll: string, part: string) returns (r: Option<R.Doc>)
      requires Valid() && Good(db) && Good(coll) && '/' !in part
      modifies store
      ensures Valid() && store.docs == old(store.docs) && (r.Some? <==> R.Has(Rel(), R.PartitionKey(db, coll, part)))
    {
      r := FindDoc(R.PartitionKey(db, coll, part));
    }

    method GetAlias(db: string, alias: string) returns (r: Option<R.Doc>)
      requires Valid() && Good(db) && '/' !in alias
      modifies store
      ensures Valid() && store.docs == old(store.docs) && (r.Some? <==> R.Has(Rel(), R.AliasKey(db, alias)))
      ensures r.Some? ==> r.value in Rel() && R.KeyOf(r.value) == R.AliasKey(db, alias)
    {
      r := FindDoc(R.AliasKey(db, alias));
    }

    method PutPartition(db: string, coll: string, part: string)
      requires Valid() && Good(db) && Good(coll) && '/' !in part && ValidName(part)
      modifies this, store, store.files
      ensures Valid() && Rel() == R.Put(old(Rel()), R.PartitionDoc(db, coll, part, R.PartitionKind(part)))
      ensures writes == old(writes) + [S.PutDoc(R.PartitionDoc(db, coll, part, R.PartitionKind(part)))]
    {
      GoodPartition(db, coll, part);
      PutDoc(R.PartitionDoc(db, coll, part, R.PartitionKind(part)));
    }

    method PutCollection(db: string, coll: string, meta: string)
      requires Valid() && Good(db) && Good(coll) && ValidName(db) && ValidName(coll)
      modifies this, store, store.files
      ensures Valid() && Rel() == R.Put(old(Rel()), R.CollectionDoc(db, coll, meta))
      ensures writes == old(writes) + [S.PutDoc(R.CollectionDoc(db, coll, meta))]
    {
      PutDoc(R.CollectionDoc(db, coll, meta));
    }

    method PutAlias(db: string, alias: string, coll: string)
      requires Valid() && Good(db) && '/' !in alias && Good(coll)
      modifies this, store, store.files
      ensures Valid() && Rel() == R.Put(old(Rel()), R.AliasDoc(db, alias, coll))
      ensures writes == old(writes) + [S.PutDoc(R.AliasDoc(db, alias, coll))]
    {
      PutDoc(R.AliasDoc(db, alias, coll));
    }

    method SetLoadState(db: string, coll: string, loaded: bool, scope: string, parts: seq<string>, replicas: int)
      requires Valid() && Good(db) && Good(coll)
      modifies this, store, store.files
      ensures Valid() && Rel() == R.Put(old(Rel()), R.LoadDoc(db, coll, loaded, scope, parts, replicas))
      ensures writes == old(writes) + [S.PutDoc(R.LoadDoc(db, coll, loaded, scope, parts, replicas))]
    {
      GoodLoad(R.LoadDoc(db, coll, loaded, scope, parts, replicas));
      PutDoc(R.LoadDoc(db, coll, loaded, scope, parts, replicas));
    }

    // ---------- queries ----------

    method ResolveName(db: string, name: string) returns (coll: string)
      requires Valid() && Good(db) && Good(name)
      modifies store
      ensures Valid() && store.docs == old(store.docs)
      ensures coll == R.Resolve(Rel(), db, name) && Good(coll)
    {
      FiledIsKeyed(store.docs);
      var c := GetCollection(db, name);
      if c.Some? {
        return name;
      }
      var a := GetAlias(db, name);
      if a.Some? {
        return a.value.coll;
      }
      return name;
    }

    method GetLoadState(db: string, coll: string) returns (d: R.Doc)
      requires Valid() && Good(db) && Good(coll)
      modifies store
      ensures Valid() && store.docs == old(store.docs) && d == R.LoadState(Rel(), db, coll)
    {
      FiledIsKeyed(store.docs);
      var found := FindDoc(R.LoadKey(db, coll));
      d := if found.Some? then found.value else R.LoadDoc(db, coll, false, "collection", [], 1);
    }

    /** list_collections */
    method ListCollections(db: string) returns (names: seq<string>)
      requires Valid()
      modifies store
      ensures Valid() && store.docs == old(store.docs) && forall n :: n in names <==> n in R.ListCollections(Rel(), db)
    {
      hide Rows, Filed, S.DoAll;
      var ds := ListDocs(DOC_COLLECTION);
      KindsAre(ds, DOC_COLLECTION);
      names := CollectionsIn(ds, db);
    }

    /** list_partitions: the stored ones, and the default one of a collection. */
    method ListPartitions(db: string, coll: string) returns (parts: seq<string>)
      requires Valid() && Good(db) && '/' !in coll
      modifies store
      ensures Valid() && store.docs == old(store.docs) && forall p :: p in parts <==> p in R.ListPartitions(Rel(), db, coll)
    {
      hide Rows, Filed, S.DoAll;
      var ds := ListDocs(DOC_PARTITION);
      KindsAre(ds, DOC_PARTITION);
      parts := PartsIn(ds, db, coll);
      if R.DEFAULT_PARTITION !in parts {
        var found := GetCollection(db, coll);
        if found.Some? {
          parts := parts + [R.DEFAULT_PARTITION];
        }
      }
    }

    /** list_indexes */
    method ListIndexes(db: string, coll: string) returns (indexes: seq<R.Doc>)
      requires Valid()
      modifies store
      ensures Valid() && store.docs == old(store.docs) && forall d :: d in indexes <==> d in R.ListIndexes(Rel(), db, coll)
    {
      hide Rows, Filed, S.DoAll;
      var ds := ListDocs(DOC_INDEX);
      KindsAre(ds, DOC_INDEX);
      indexes := IndexesIn(ds, db, coll);
    }

    /** list_aliases */
    method ListAliases(db: string) returns (aliases: seq<R.Doc>)
      requires Valid()
      modifies store
      ensures Valid() && store.docs == old(store.docs) && forall d :: d in aliases <==> d in Rel() && d.AliasDoc? && d.db == db
    {
      hide Rows, Filed, S.DoAll;
      var ds := ListDocs(DOC_ALIAS);
      KindsAre(ds, DOC_ALIAS);
      aliases := AliasesIn(ds, db);
    }

    // ---------- databases ----------

    method CreateDatabase(db: string) returns (error: Option<R.Error>)
      requires Valid() && '/' !in db
      modifies this, store, store.files
      ensures Valid() && R.Step(Rel(), error) == R.CreateDatabase(old(Rel()), db)
      ensures writes == old(writes) + S.Writes(old(Rel()), R.OpCreateDatabase(db), S.NO_ORDER)
    {
      if !ValidName(db) {
        return Some(R.ParamError);
      }
      var found := GetDatabase(db);
      if found.Some? {
        return Some(R.AlreadyExists);
      }
      PutDoc(R.DatabaseDoc(db));
      return None;
    }

    method DropDatabase(db: string) returns (error: Option<R.Error>)
      requires Valid() && '/' !in db
      modifies this, store, store.files
      ensures Valid() && R.Step(Rel(), error) == R.DropDatabase(old(Rel()), db)
      ensures writes == old(writes) + S.Writes(old(Rel()), R.OpDropDatabase(db), S.NO_ORDER)
    {
      if !ValidName(db) || db == R.DEFAULT_DB {
        return Some(R.ParamError);
      }
      var found := GetDatabase(db);
      if found.None? {
        return Some(R.NotFound);
      }
      var names := ListCollections(db);
      if |names| > 0 {
        assert names[0] in R.ListCollections(Rel(), db);
        return Some(R.ParamError);
      }
      assert R.ListCollections(Rel(), db) == {};
      DeleteDoc(R.DatabaseKey(db));
      return None;
    }

    // ---------- collections ----------

    method PutBareCollection(db: string, coll: string, meta: string)
      requires Valid() && Good(db) && Good(coll) && ValidName(db) && ValidName(coll)
      modifies this, store, store.files
      ensures Valid()
      ensures Rel() == R.Put(R.Put(old(Rel()), R.CollectionDoc(db, coll, meta)),
                             R.PartitionDoc(db, coll, R.DEFAULT_PARTITION, R.PartitionKind(R.DEFAULT_PARTITION)))
      ensures writes == old(writes) + [S.PutDoc(R.CollectionDoc(db, coll, meta)),
                                       S.PutDoc(R.PartitionDoc(db, coll, R.DEFAULT_PARTITION, R.PartitionKind(R.DEFAULT_PARTITION)))]
    {
      hide Rows, Filed, S.DoAll;
      PutCollection(db, coll, meta);
      PutPartition(db, coll, R.DEFAULT_PARTITION);
    }

    method CreateCollection(db: string, coll: string, meta: string, filesOk: bool) returns (error: Option<R.Error>)
      requires Valid() && Good(db) && Good(coll)
      modifies this, store, store.files
      ensures Valid() && R.Step(Rel(), error) == R.CreateCollection(old(Rel()), db, coll, meta, filesOk)
      ensures writes == old(writes) + S.Writes(old(Rel()), R.OpCreateCollection(db, coll, meta, filesOk), S.NO_ORDER)
    {
      hide Valid, Rows, S.DoAll, Replace, ValidName;
      if !ValidName(coll) {
        return Some(R.ParamError);
      }
      var base := GetDatabase(db);
      if base.None? {
        return Some(R.NotFound);
      }
      var found := GetCollection(db, coll);
      if found.Some? {
        return Some(R.AlreadyExists);
      }
      if !ValidName(db) {
        return Some(R.ParamError);
      }
      PutBareCollection(db, coll, meta);
      if !filesOk {
        return Some(R.FilesFailed);
      }
      SetLoadState(db, coll, false, "collection", [], 1);
      return None;
    }

    /** delete_collection_meta */
    method DeleteCollectionMeta(db: string, coll: string) returns (ghost o: S.Order)
      requires Valid() && Good(db) && Good(coll)
      modifies this, store, store.files
      ensures Valid() && S.Lists(old(Rel()), db, coll, o) && writes == old(writes) + S.Deletes(S.RemovalKeys(db, coll, o))
      ensures Rel() == S.DropKeys(old(Rel()), S.RemovalKeys(db, coll, o)) == R.RemoveCollection(old(Rel()), db, coll)
    {
      hide Valid, Rows, R.Keyed, S.Lists, S.DoAll, S.DropKeys, S.Deletes, R.RemoveCollection, Replace;
      Written();
      DeleteDoc(R.CollectionKey(db, coll));
      var parts := DeletePartitions(db, coll);
      var indexes := DeleteIndexes(db, coll);
      var aliases := DeleteAliases(db, coll);
      DeleteDoc(R.LoadKey(db, coll));
      o := S.Order(parts, indexes, aliases, [], []);
      S.ListsAsItGoes(old(Rel()), db, coll, o);
      S.RemovalIsRemove(old(Rel()), db, coll, o);
      DeletesInTurn(R.CollectionKey(db, coll), parts, indexes, aliases, R.LoadKey(db, coll));
    }

    method DeletePartitions(db: string, coll: string) returns (keys: seq<R.DocKey>)
      requires Valid() && Good(db) && Good(coll)
      modifies this, store, store.files
      ensures Valid() && Rel() == S.DropKeys(old(Rel()), keys) && writes == old(writes) + S.Deletes(keys)
      ensures forall k :: k in keys <==> k.PartitionKey? && k.db == db && k.coll == coll && k.part in R.ListPartitions(old(Rel()), db, coll)
    {
      var parts := ListPartitions(db, coll);
      keys := seq(|parts|, i requires 0 <= i < |parts| => R.PartitionKey(db, coll, parts[i]));
      forall k ensures k in keys <==> k.PartitionKey? && k.db == db && k.coll == coll && k.part in parts {
        if k.PartitionKey? && k.db == db && k.coll == coll && k.part in parts {
          var i :| 0 <= i < |parts| && parts[i] == k.part;
          assert keys[i] == k;
        }
      }
      forall k | k in keys ensures CleanKey(k) {
        PartNameGood(Rel(), db, coll, k.part);
        GoodPartition(db, coll, k.part);
      }
      DeleteEach(keys);
    }

    method DeleteIndexes(db: string, coll: string) returns (keys: seq<R.DocKey>)
      requires Valid() && Good(db) && Good(coll)
      modifies this, store, store.files
      ensures Valid() && Rel() == S.DropKeys(old(Rel()), keys) && writes == old(writes) + S.Deletes(keys)
      ensures forall k :: k in keys <==> k.IndexKey? && exists d <- R.ListIndexes(old(Rel()), db, coll) :: R.KeyOf(d) == k
    {
      var indexes := ListIndexes(db, coll);
      keys := seq(|indexes|, i requires 0 <= i < |indexes| => R.KeyOf(indexes[i]));
      forall k ensures k in keys <==> k.IndexKey? && exists d <- R.ListIndexes(Rel(), db, coll) :: R.KeyOf(d) == k {
        if d :| d in R.ListIndexes(Rel(), db, coll) && R.KeyOf(d) == k {
          var i :| 0 <= i < |indexes| && indexes[i] == d;
          assert keys[i] == k;
        }
      }
      DeleteEach(keys);
    }

    method DeleteAliases(db: string, coll: string) returns (keys: seq<R.DocKey>)
      requires Valid() && Good(db) && Good(coll)
      modifies this, store, store.files
      ensures Valid() && Rel() == S.DropKeys(old(Rel()), keys) && writes == old(writes) + S.Deletes(keys)
      ensures forall k :: k in keys <==> k.AliasKey? && k.db == db && R.AliasDoc(db, k.alias, coll) in old(Rel())
    {
      var aliases := ListAliases(db);
      keys := AliasesOf(aliases, db, coll);
      forall k | k in keys ensures CleanKey(k) {
        assert R.KeyOf(R.AliasDoc(db, k.alias, coll)) == k;
      }
      DeleteEach(keys);
    }

    method DropCollection(db: string, name: string, filesOk: bool) returns (error: Option<R.Error>, ghost o: S.Order)
      requires Valid() && Good(db) && Good(name)
      modifies this, store, store.files
      ensures Valid() && R.Step(Rel(), error) == R.DropCollection(old(Rel()), db, name, filesOk)
      ensures var op := R.OpDropCollection(db, name, filesOk);
              S.Ordered(old(Rel()), op, o) && writes == old(writes) + S.Writes(old(Rel()), op, o)
    {
      hide Valid, Rows, R.RemoveCollection, S.Lists, S.RemovalKeys, S.DropKeys;
      o := S.NO_ORDER;
      var coll := ResolveName(db, name);
      var found := GetCollection(db, coll);
      if found.None? {
        return Some(R.NotFound), o;
      }
      if !filesOk {
        return Some(R.FilesFailed), o;
      }
      o := DeleteCollectionMeta(db, coll);
      return None, o;
    }

    method RenameCollection(db: string, coll: string, to: string, filesOk: bool) returns (error: Option<R.Error>, ghost o: S.Order)
      requires Valid() && Good(db) && Good(coll) && Good(to)
      modifies this, store, store.files
      ensures Valid() && R.Step(Rel(), error) == R.RenameCollection(old(Rel()), db, coll, to, filesOk)
      ensures var op := R.OpRename(db, coll, to, filesOk);
              S.Ordered(old(Rel()), op, o) && writes == old(writes) + S.Writes(old(Rel()), op, o)
    {
      hide Valid, Rows, R.Relabelled, S.DoAll, S.Lists, S.ListsCopies, S.RemovalKeys, S.Copies;
      o := S.NO_ORDER;
      if !ValidName(to) {
        return Some(R.ParamError), o;
      }
      var found := GetCollection(db, coll);
      if found.None? {
        return Some(R.NotFound), o;
      }
      var taken := GetCollection(db, to);
      if taken.Some? {
        return Some(R.AlreadyExists), o;
      }
      if !filesOk {
        return Some(R.FilesFailed), o;
      }
      Written();
      o := MoveDocuments(db, coll, to, found.value);
      Written();
      S.RenameWrites(old(Rel()), db, coll, to, o);
      S.DoInTurn(base, old(writes), S.Deletes(S.RemovalKeys(db, coll, o)) + S.Puts(S.Copies(old(Rel()), db, coll, to, o)));
      return None, o;
    }

    /** The part of a rename after the directory has moved. */
    method MoveDocuments(db: string, coll: string, to: string, found: R.Doc) returns (ghost o: S.Order)
      requires Valid() && Good(db) && Good(coll) && Good(to) && ValidName(to)
      requires found.CollectionDoc? && found in Rel() && R.KeyOf(found) == R.CollectionKey(db, coll)
      modifies this, store, store.files
      ensures Valid() && R.Has(old(Rel()), R.CollectionKey(db, coll))
      ensures S.Lists(old(Rel()), db, coll, o) && S.ListsCopies(old(Rel()), db, coll, to, o)
      ensures writes == old(writes) + (S.Deletes(S.RemovalKeys(db, coll, o)) + S.Puts(S.Copies(old(Rel()), db, coll, to, o)))
    {
      hide Valid, Rows, R.Relabelled, R.Has, R.RemoveCollection, S.RemovalKeys, S.Copies, S.Lists, S.ListsCopies, S.DropKeys, GoodDoc;
      ghost var c := Rel();
      var newParts, newIndexes, load := ReadMoved(db, coll, to, found);
      o := DeleteCollectionMeta(db, coll);
      WithCopies(c, db, coll, to, o, newParts, newIndexes);
      o := o.(newParts := newParts, newIndexes := newIndexes);
      PutCopies(R.CollectionDoc(db, to, found.meta), newParts, newIndexes, R.MoveLoad(load, to));
    }

    /** The catalog is what the writes made of the one found at the start. */
    lemma Written()
      requires Valid()
      ensures Rel() == S.DoAll(base, writes) && R.Keyed(Rel())
    {
      FiledIsKeyed(store.docs);
    }

    /** What the rename reads before it deletes the old documents. */
    method ReadMoved(db: string, coll: string, to: string, found: R.Doc)
      returns (newParts: seq<R.Doc>, newIndexes: seq<R.Doc>, load: R.Doc)
      requires Valid() && Good(db) && Good(coll) && Good(to) && ValidName(to)
      requires found.CollectionDoc? && found in Rel() && R.KeyOf(found) == R.CollectionKey(db, coll)
      modifies store
      ensures Valid() && store.docs == old(store.docs) && R.Has(Rel(), R.CollectionKey(db, coll))
      ensures R.MetaOf(Rel(), db, coll) == found.meta && load == R.LoadState(Rel(), db, coll)
      ensures forall d :: d in newParts <==> d.PartitionDoc? && d in R.Relabelled(Rel(), db, coll, to)
      ensures forall d :: d in newIndexes <==> d.IndexDoc? && d in R.Relabelled(Rel(), db, coll, to)
      ensures forall d <- newParts + newIndexes + [R.CollectionDoc(db, to, found.meta), R.MoveLoad(load, to)] :: GoodDoc(d)
    {
      hide Rows, R.Relabelled, R.Keyed, R.Has, S.DoAll, R.ListPartitions, R.ListIndexes, GoodDoc, Filed, PartCopies, IndexCopies;
      FiledIsKeyed(store.docs);
      var parts := ListPartitions(db, coll);
      var indexes := ListIndexes(db, coll);
      load := GetLoadState(db, coll);
      newParts := PartCopies(db, to, parts);
      newIndexes := IndexCopies(indexes, to);
      MetaIs(Rel(), found);
      CopiesListed(Rel(), db, coll, to, parts, indexes);
      CopiesGood(Rel(), db, coll, to, parts, indexes);
      GoodCollection(found, to);
      GoodLoad(R.MoveLoad(load, to));
    }

    method PutCopies(a: R.Doc, b: seq<R.Doc>, d: seq<R.Doc>, e: R.Doc)
      requires Valid() && forall x <- b + d + [a, e] :: GoodDoc(x)
      modifies this, store, store.files
      ensures Valid() && writes == old(writes) + S.Puts([a] + b + d + [e])
    {
      hide Valid, Rows, S.DoAll, GoodDoc, S.Puts;
      assert forall x <- b + d + [a, e] :: GoodDoc(x);
      PutDoc(a);
      PutEach(b);
      PutEach(d);
      PutDoc(e);
      PutsInTurn(a, b, d, e);
    }

    method LoadCollection(db: string, name: string, replicas: R.ReplicaNumber) returns (error: Option<R.Error>)
      requires Valid() && Good(db) && Good(name)
      modifies this, store, store.files
      ensures Valid() && R.Step(Rel(), error) == R.LoadCollection(old(Rel()), db, name, replicas)
      ensures writes == old(writes) + S.Writes(old(Rel()), R.OpLoad(db, name, replicas), S.NO_ORDER)
    {
      hide Valid, Good, Rows, S.DoAll, R.Resolve;
      var coll := ResolveName(db, name);
      var found := GetCollection(db, coll);
      if found.None? {
        return Some(R.NotFound);
      }
      SetLoadState(db, coll, true, "collection", [], R.OrOne(replicas));
      return None;
    }

    method ReleaseCollection(db: string, name: string) returns (error: Option<R.Error>)
      requires Valid() && Good(db) && Good(name)
      modifies this, store, store.files
      ensures Valid() && R.Step(Rel(), error) == R.ReleaseCollection(old(Rel()), db, name)
      ensures writes == old(writes) + S.Writes(old(Rel()), R.OpRelease(db, name), S.NO_ORDER)
    {
      hide Valid, Good, Rows, S.DoAll, R.Resolve;
      var coll := ResolveName(db, name);
      var found := GetCollection(db, coll);
      if found.None? {
        return Some(R.NotFound);
      }
      SetLoadState(db, coll, false, "collection", [], 1);
      return None;
    }

    // ---------- partitions ----------

    method CreatePartition(db: string, name: string, part: string, filesOk: bool) returns (error: Option<R.Error>)
      requires Valid() && Good(db) && Good(name) && '/' !in part
      modifies this, store, store.files
      ensures Valid() && R.Step(Rel(), error) == R.CreatePartition(old(Rel()), db, name, part, filesOk)
      ensures writes == old(writes) + S.Writes(old(Rel()), R.OpCreatePartition(db, name, part, filesOk), S.NO_ORDER)
    {
      hide Valid, Good, Rows, S.DoAll, R.Resolve;
      var coll := ResolveName(db, name);
      if !ValidName(part) || part == R.DEFAULT_PARTITION {
        return Some(R.ParamError);
      }
      var base := GetCollection(db, coll);
      if base.None? {
        return Some(R.NotFound);
      }
      var found := GetPartition(db, coll, part);
      if found.Some? {
        return Some(R.AlreadyExists);
      }
      PutPartition(db, coll, part);
      if !filesOk {
        return Some(R.FilesFailed);
      }
      return None;
    }

    method DropPartition(db: string, name: string, part: string, filesOk: bool) returns (error: Option<R.Error>)
      requires Valid() && Good(db) && Good(name) && '/' !in part
      modifies this, store, store.files
      ensures Valid() && R.Step(Rel(), error) == R.DropPartition(old(Rel()), db, name, part, filesOk)
      ensures writes == old(writes) + S.Writes(old(Rel()), R.OpDropPartition(db, name, part, filesOk), S.NO_ORDER)
    {
      hide Valid, Rows, S.DoAll, R.Resolve;
      var coll := ResolveName(db, name);
      if part == R.DEFAULT_PARTITION {
        return Some(R.ParamError);
      }
      var found := GetPartition(db, coll, part);
      if found.None? {
        return Some(R.NotFound);
      }
      if !filesOk {
        return Some(R.FilesFailed);
      }
      DeleteDoc(R.PartitionKey(db, coll, part));
      return None;
    }

    method LoadPartitions(db: string, name: string, parts: seq<string>) returns (error: Option<R.Error>)
      requires Valid() && Good(db) && Good(name)
      modifies this, store, store.files
      ensures Valid() && R.Step(Rel(), error) == R.LoadPartitions(old(Rel()), db, name, parts)
      ensures writes == old(writes) + S.Writes(old(Rel()), R.OpLoadPartitions(db, name, parts), S.NO_ORDER)
    {
      hide Valid, Good, Rows, S.DoAll, R.Resolve;
      var coll := ResolveName(db, name);
      var found := GetCollection(db, coll);
      if found.None? {
        return Some(R.NotFound);
      }
      SetLoadState(db, coll, true, "partition", parts, 1);
      return None;
    }

    method ReleasePartitions(db: string, name: string, parts: seq<string>) returns (error: Option<R.Error>)
      requires Valid() && Good(db) && Good(name)
      modifies this, store, store.files
      ensures Valid() && R.Step(Rel(), error) == R.ReleasePartitions(old(Rel()), db, name, parts)
      ensures writes == old(writes) + S.Writes(old(Rel()), R.OpReleasePartitions(db, name, parts), S.NO_ORDER)
    {
      hide Valid, Good, Rows, S.DoAll, R.Resolve;
      var coll := ResolveName(db, name);
      var all := ListPartitions(db, coll);
      var missing := exists p | p in all :: p !in parts;
      assert R.ListPartitions(Rel(), db, coll) <= (set p | p in parts) <==> !missing;
      if parts == [] || !missing {
        SetLoadState(db, coll, false, "collection", [], 1);
      }
      return None;
    }

    // ---------- aliases and indexes ----------

    method CreateAlias(db: string, alias: string, coll: string) returns (error: Option<R.Error>)
      requires Valid() && Good(db) && '/' !in alias && Good(coll)
      modifies this, store, store.files
      ensures Valid() && R.Step(Rel(), error) == R.CreateAlias(old(Rel()), db, alias, coll)
      ensures writes == old(writes) + S.Writes(old(Rel()), R.OpCreateAlias(db, alias, coll), S.NO_ORDER)
    {
      hide Valid, Rows, S.DoAll, Replace, ValidName;
      if !ValidName(alias) {
        return Some(R.ParamError);
      }
      var base := GetCollection(db, coll);
      if base.None? {
        return Some(R.NotFound);
      }
      var found := GetAlias(db, alias);
      var named := GetCollection(db, alias);
      if found.Some? || named.Some? {
        return Some(R.AlreadyExists);
      }
      PutAlias(db, alias, coll);
      return None;
    }

    method AlterAlias(db: string, alias: string, coll: string) returns (error: Option<R.Error>)
      requires Valid() && Good(db) && '/' !in alias && Good(coll)
      modifies this, store, store.files
      ensures Valid() && R.Step(Rel(), error) == R.AlterAlias(old(Rel()), db, alias, coll)
      ensures writes == old(writes) + S.Writes(old(Rel()), R.OpAlterAlias(db, alias, coll), S.NO_ORDER)
    {
      var found := GetAlias(db, alias);
      if found.None? {
        return Some(R.NotFound);
      }
      var base := GetCollection(db, coll);
      if base.None? {
        return Some(R.NotFound);
      }
      PutAlias(db, alias, coll);
      return None;
    }

    method DropAlias(db: string, alias: string) returns (error: Option<R.Error>)
      requires Valid() && Good(db) && '/' !in alias
      modifies this, store, store.files
      ensures Valid() && R.Step(Rel(), error) == R.DropAlias(old(Rel()), db, alias)
      ensures writes == old(writes) + S.Writes(old(Rel()), R.OpDropAlias(db, alias), S.NO_ORDER)
    {
      var found := GetAlias(db, alias);
      if found.None? {
        return Some(R.NotFound);
      }
      DeleteDoc(R.AliasKey(db, alias));
      return None;
    }

    method CreateIndex(db: string, name: string, index: string, field: string, itype: string, metric: string,
                       params: map<string, string>, paramsOk: bool, rebuildOk: bool)
      returns (error: Option<R.Error>)
      requires Valid() && Good(db) && Good(name)
      modifies this, store, store.files
      ensures Valid()
      ensures R.Step(Rel(), error) == R.CreateIndex(old(Rel()), db, name, index, field, itype, metric, params, paramsOk, rebuildOk)
      ensures writes == old(writes)
                        + S.Writes(old(Rel()), R.OpCreateIndex(db, name, index, field, itype, metric, params, paramsOk, rebuildOk), S.NO_ORDER)
    {
      hide Valid, Rows, S.DoAll, R.Resolve, Clean;
      var coll := ResolveName(db, name);
      var base := GetCollection(db, coll);
      if base.None? {
        return Some(R.NotFound);
      }
      if !paramsOk {
        return Some(R.ParamError);
      }
      GoodIndex(R.IndexDoc(db, coll, index, field, itype, metric, params));
      PutDoc(R.IndexDoc(db, coll, index, field, itype, metric, params));
      if !rebuildOk {
        return Some(R.FilesFailed);
      }
      return None;
    }

    method DropIndex(db: string, name: string, index: string) returns (error: Option<R.Error>)
      requires Valid() && Good(db) && Good(name)
      modifies this, store, store.files
      ensures Valid() && R.Step(Rel(), error) == R.DropIndex(old(Rel()), db, name, index)
      ensures writes == old(writes) + S.Writes(old(Rel()), R.OpDropIndex(db, name, index), S.NO_ORDER)
    {
      hide Valid, Rows, S.DoAll, R.Resolve;
      var coll := ResolveName(db, name);
      if index == "" {
        return Some(R.ParamError);
      }
      NoSlashLeft(index);
      var found := FindDoc(R.IndexKey(db, coll, Replace(index)));
      if found.None? {
        return Some(R.NotFound);
      }
      DeleteDoc(R.IndexKey(db, coll, Replace(index)));
      return None;
    }
  }

  lemma WithCopies(c: R.Catalog, db: string, coll: string, to: string, o: S.Order, newParts: seq<R.Doc>, newIndexes: seq<R.Doc>)
    requires S.Lists(c, db, coll, o) && R.Has(c, R.CollectionKey(db, coll))
    requires forall d :: d in newParts <==> d.PartitionDoc? && d in R.Relabelled(c, db, coll, to)
    requires forall d :: d in newIndexes <==> d.IndexDoc? && d in R.Relabelled(c, db, coll, to)
    ensures var p := o.(newParts := newParts, newIndexes := newIndexes);
            && S.Lists(c, db, coll, p) && S.ListsCopies(c, db, coll, to, p) && S.RemovalKeys(db, coll, p) == S.RemovalKeys(db, coll, o)
            && S.Copies(c, db, coll, to, p) == [R.CollectionDoc(db, to, R.MetaOf(c, db, coll))] + newParts + newIndexes
                                              + [R.MoveLoad(R.LoadState(c, db, coll), to)]
  {
  }

  lemma PutsInTurn(a: R.Doc, b: seq<R.Doc>, d: seq<R.Doc>, e: R.Doc)
    ensures S.Puts([a] + b + d + [e]) == [S.PutDoc(a)] + S.Puts(b) + S.Puts(d) + [S.PutDoc(e)]
  {
  }

  lemma DeletesInTurn(a: R.DocKey, b: seq<R.DocKey>, d: seq<R.DocKey>, e: seq<R.DocKey>, f: R.DocKey)
    ensures S.Deletes([a] + b + d + e + [f]) == [S.DeleteKey(a)] + S.Deletes(b) + S.Deletes(d) + S.Deletes(e) + [S.DeleteKey(f)]
  {
  }

  function PartCopies(db: string, to: string, parts: seq<string>): seq<R.Doc> {
    seq(|parts|, i requires 0 <= i < |parts| => R.PartitionDoc(db, to, parts[i], R.PartitionKind(parts[i])))
  }

  function IndexCopies(indexes: seq<R.Doc>, to: string): seq<R.Doc> {
    seq(|indexes|, i requires 0 <= i < |indexes| => R.MoveIndex(indexes[i], to))
  }

  lemma CopiesGood(c: R.Catalog, db: string, coll: string, to: string, parts: seq<string>, indexes: seq<R.Doc>)
    requires (forall d <- c :: GoodDoc(d)) && Good(db) && Good(to)
    requires forall p <- parts :: p in R.ListPartitions(c, db, coll)
    requires forall d <- indexes :: d in R.ListIndexes(c, db, coll)
    ensures forall d <- PartCopies(db, to, parts) + IndexCopies(indexes, to) :: GoodDoc(d)
  {
    hide GoodDoc, R.ListPartitions, R.ListIndexes;
    MovedGood(c, db, coll, to);
  }

  /** The copies of the partitions and indexes listed are the relabelled ones. */
  lemma CopiesListed(c: R.Catalog, db: string, coll: string, to: string, parts: seq<string>, indexes: seq<R.Doc>)
    requires R.Has(c, R.CollectionKey(db, coll))
    requires forall p :: p in parts <==> p in R.ListPartitions(c, db, coll)
    requires forall d :: d in indexes <==> d in R.ListIndexes(c, db, coll)
    ensures forall d :: d in PartCopies(db, to, parts) <==> d.PartitionDoc? && d in R.Relabelled(c, db, coll, to)
    ensures forall d :: d in IndexCopies(indexes, to) <==> d.IndexDoc? && d in R.Relabelled(c, db, coll, to)
  {
    var newParts, newIndexes := PartCopies(db, to, parts), IndexCopies(indexes, to);
    forall d | d in newParts ensures d.PartitionDoc? && d in R.Relabelled(c, db, coll, to) {
      var i :| 0 <= i < |newParts| && newParts[i] == d;
      assert parts[i] in R.ListPartitions(c, db, coll);
    }
    forall d | d in R.Relabelled(c, db, coll, to) && d.PartitionDoc? ensures d in newParts {
      var i :| 0 <= i < |parts| && parts[i] == d.part;
      assert newParts[i] == d;
    }
    forall d | d in newIndexes ensures d.IndexDoc? && d in R.Relabelled(c, db, coll, to) {
      var i :| 0 <= i < |newIndexes| && newIndexes[i] == d;
      assert indexes[i] in R.ListIndexes(c, db, coll);
    }
    forall d | d in R.Relabelled(c, db, coll, to) && d.IndexDoc? ensures d in newIndexes {
      var e :| e in R.ListIndexes(c, db, coll) && R.MoveIndex(e, to) == d;
      var i :| 0 <= i < |indexes| && indexes[i] == e;
      assert newIndexes[i] == d;
    }
  }
}
