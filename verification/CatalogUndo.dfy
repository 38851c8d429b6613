/** What one catalog operation undoes of another, and what each leaves alone. */
module CatalogUndo {
  import opened Wrappers
  import opened Naming
  import opened Relations
  import opened CatalogIntegrity

  /** Putting a new key and deleting it again changes nothing. */
  lemma DeleteUndoesPutIff(c: Catalog, d: Doc)
    ensures Delete(Put(c, d), KeyOf(d)) == c <==> !Has(c, KeyOf(d))
  {
  }

  /** Dropping a database undoes creating it. */
  lemma DropUndoesCreateDatabase(c: Catalog, db: string)
    requires Integrity(c) && CreateDatabase(c, db).error == None && db != DEFAULT_DB
    ensures DropDatabase(CreateDatabase(c, db).c, db) == Ok(c)
  {
  }

  /** A name that is not a collection owns nothing but, possibly, a load state
      that says it is not loaded. */
  lemma OnlyLoadStateBelongs(c: Catalog, db: string, coll: string, d: Doc)
    requires Integrity(c) && !Has(c, CollectionKey(db, coll)) && d in c && Belongs(d, db, coll)
    ensures d.LoadDoc? && !d.loaded
  {
  }

  /** Dropping a collection undoes creating it, except that a load state stored
      before for the bare name goes too. */
  lemma DropUndoesCreateCollectionIff(c: Catalog, db: string, coll: string, meta: string)
    requires Integrity(c) && CreateCollection(c, db, coll, meta, true).error == None
    ensures var r := DropCollection(CreateCollection(c, db, coll, meta, true).c, db, coll, true);
            r.error == None && (r.c == c <==> !Has(c, LoadKey(db, coll)))
  {
    hide RemoveCollection, Put, Integrity;
    RemoveUndoesIff(c, db, coll, CollectionDoc(db, coll, meta), PartitionDoc(db, coll, DEFAULT_PARTITION, PartitionKind(DEFAULT_PARTITION)),
                    LoadDoc(db, coll, false, "collection", [], 1));
  }

  lemma RemoveUndoesIff(c: Catalog, db: string, coll: string, d1: Doc, d2: Doc, d3: Doc)
    requires Integrity(c) && !Has(c, CollectionKey(db, coll))
    requires d1.CollectionDoc? && d2.PartitionDoc? && d3.LoadDoc? && d1.db == d2.db == d3.db == db && d1.coll == d2.coll == d3.coll == coll
    ensures var c' := Put(Put(Put(c, d1), d2), d3);
            Has(c', CollectionKey(db, coll)) && (RemoveCollection(c', db, coll) == c <==> !Has(c, LoadKey(db, coll)))
  {
    var c' := Put(Put(Put(c, d1), d2), d3);
    assert d1 in c';
    forall d | d in c && Belongs(d, db, coll) ensures KeyOf(d) == LoadKey(db, coll) {
      OnlyLoadStateBelongs(c, db, coll, d);
    }
    hide Integrity;
    var r := RemoveCollection(c', db, coll);
    if e :| e in c && KeyOf(e) == LoadKey(db, coll) {
      assert e !in r;
    }
  }

  lemma DropUndoesCreatePartition(c: Catalog, db: string, name: string, part: string)
    requires Integrity(c) && CreatePartition(c, db, name, part, true).error == None
    ensures DropPartition(CreatePartition(c, db, name, part, true).c, db, name, part, true) == Ok(c)
  {
    var coll := Resolve(c, db, name);
    var d := PartitionDoc(db, coll, part, PartitionKind(part));
    DeleteUndoesPutIff(c, d);
    PutHas(c, d);
    SameResolution(c, d, db, name);
  }

  /** A document that is neither a collection nor an alias does not change how names resolve. */
  lemma SameResolution(c: Catalog, d: Doc, db: string, name: string)
    requires Keyed(c) && !d.CollectionDoc? && !d.AliasDoc?
    ensures Resolve(Put(c, d), db, name) == Resolve(c, db, name)
  {
  }

  lemma DropUndoesCreateAlias(c: Catalog, db: string, alias: string, coll: string)
    requires CreateAlias(c, db, alias, coll).error == None
    ensures DropAlias(CreateAlias(c, db, alias, coll).c, db, alias) == Ok(c)
  {
  }

  /** Dropping an index undoes creating it, also when the rebuild failed, unless
      it had replaced one of the same name, which does not come back. */
  lemma DropUndoesCreateIndexIff(c: Catalog, db: string, name: string, index: string, field: string, itype: string,
                                 metric: string, params: map<string, string>, rebuildOk: bool)
    requires Keyed(c) && index != ""
    requires CreateIndex(c, db, name, index, field, itype, metric, params, true, rebuildOk).error in {None, Some(FilesFailed)}
    ensures var r := DropIndex(CreateIndex(c, db, name, index, field, itype, metric, params, true, rebuildOk).c, db, name, index);
            r.error == None && (r.c == c <==> !Has(c, IndexKey(db, Resolve(c, db, name), Replace(index))))
  {
    var d := IndexDoc(db, Resolve(c, db, name), index, field, itype, metric, params);
    DeleteUndoesPutIff(c, d);
    PutHas(c, d);
    SameResolution(c, d, db, name);
    hide Replace, Put, Delete, Has, Resolve;
  }

  /** A new index replaces an old one exactly when their ids spell the same name,
      which need not be the same name. */
  lemma CreateIndexReplacesIff(c: Catalog, db: string, name: string, index: string, field: string, itype: string,
                               metric: string, params: map<string, string>, rebuildOk: bool, was: Doc)
    requires was in c && was.IndexDoc? && was.db == db && was.coll == Resolve(c, db, name)
    requires CreateIndex(c, db, name, index, field, itype, metric, params, true, rebuildOk).error in {None, Some(FilesFailed)}
    ensures var c' := CreateIndex(c, db, name, index, field, itype, metric, params, true, rebuildOk).c;
            && IndexDoc(db, was.coll, index, field, itype, metric, params) in c'
            && (was !in c' <==> Replace(was.index) == Replace(index) && was != IndexDoc(db, was.coll, index, field, itype, metric, params))
  {
  }

  /** An alias created or altered resolves to its collection at once, and no
      other name resolves differently. */
  lemma AliasResolves(c: Catalog, db: string, alias: string, coll: string, name: string)
    requires Integrity(c) && !Has(c, CollectionKey(db, alias))
    requires CreateAlias(c, db, alias, coll).error == None || AlterAlias(c, db, alias, coll).error == None
    ensures var c' := Put(c, AliasDoc(db, alias, coll));
            && (CreateAlias(c, db, alias, coll).error == None ==> CreateAlias(c, db, alias, coll).c == c')
            && (AlterAlias(c, db, alias, coll).error == None ==> AlterAlias(c, db, alias, coll).c == c')
            && Resolve(c', db, name) == if name == alias then coll else Resolve(c, db, name)
  {
    hide Replace, ValidName;
    var d := AliasDoc(db, alias, coll);
    var c' := Put(c, d);
    PutHas(c, d);
    if Has(c', AliasKey(db, name)) {
      var u := AliasTarget(c', db, name);
      if name == alias {
        assert AliasDoc(db, name, u) == d;
      } else {
        assert AliasDoc(db, name, u) in c;
        assert KeyOf(AliasDoc(db, name, u)) == KeyOf(AliasDoc(db, name, AliasTarget(c, db, name)));
      }
    }
  }

  /** Loading and releasing set exactly the load state of the collection the name
      resolves to; releasing after loading leaves the default state. */
  lemma LoadThenRelease(c: Catalog, db: string, name: string, replicas: ReplicaNumber)
    requires Integrity(c) && LoadCollection(c, db, name, replicas).error == None
    ensures var coll, loaded := Resolve(c, db, name), LoadCollection(c, db, name, replicas).c;
            var released := ReleaseCollection(loaded, db, name);
            && LoadState(loaded, db, coll) == LoadDoc(db, coll, true, "collection", [], replicas)
            && released.error == None
            && LoadState(released.c, db, coll) == LoadDoc(db, coll, false, "collection", [], 1)
            && forall d | KeyOf(d) != LoadKey(db, coll) :: (d in released.c <==> d in c) && (d in loaded <==> d in c)
  {
    var coll := Resolve(c, db, name);
    var d := LoadDoc(db, coll, true, "collection", [], replicas);
    var loaded := Put(c, d);
    var e := LoadDoc(db, coll, false, "collection", [], 1);
    hide Resolve, LoadState, Integrity;
    LoadStateStored(c, d);
    SameResolution(c, d, db, name);
    LoadStateStored(loaded, e);
  }

  lemma LoadStateStored(c: Catalog, d: Doc)
    requires Integrity(c) && d.LoadDoc? && Anchored(c, d)
    ensures Keyed(c) && Integrity(Put(c, d)) && LoadState(Put(c, d), d.db, d.coll) == d
    ensures Has(c, CollectionKey(d.db, d.coll)) ==> Has(Put(c, d), CollectionKey(d.db, d.coll))
  {
  }

  /** Releasing some partitions changes the load state exactly when they are all
      there are, or none are named. */
  lemma ReleasePartitionsIff(c: Catalog, db: string, name: string, parts: seq<string>)
    requires Integrity(c) && LoadState(c, db, Resolve(c, db, name)).loaded
    ensures var coll, c' := Resolve(c, db, name), ReleasePartitions(c, db, name, parts).c;
            !LoadState(c', db, coll).loaded <==> parts == [] || forall p <- ListPartitions(c, db, coll) :: p in parts
  {
  }
}
