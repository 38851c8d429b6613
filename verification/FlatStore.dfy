/** The relational catalog inside the flat, string-keyed store. */
module FlatStore {
  import opened Naming
  import opened Relations
  import Crash

  type Docs = Crash.Docs

  function TypeName(key: DocKey): string {
    match key
    case DatabaseKey(_) => DOC_DATABASE
    case CollectionKey(_, _) => DOC_COLLECTION
    case PartitionKey(_, _, _) => DOC_PARTITION
    case AliasKey(_, _) => DOC_ALIAS
    case IndexKey(_, _, _) => DOC_INDEX
    case LoadKey(_, _) => DOC_LOAD
    case OtherKey(docType, _) => docType
  }

  function Names(key: DocKey): (names: seq<string>)
    ensures names != []
  {
    match key
    case DatabaseKey(db) => [db]
    case CollectionKey(db, coll) => [db, coll]
    case PartitionKey(db, coll, part) => [db, coll, part]
    case AliasKey(db, alias) => [db, alias]
    case IndexKey(db, coll, index) => [db, coll, index]
    case LoadKey(db, coll) => [db, coll]
    case OtherKey(_, name) => [name]
  }

  function IdOf(key: DocKey): string {
    MakeId(TypeName(key), Path(Names(key)))
  }

  /** The id of an index is the id of its name as it is written. */
  lemma IndexIdIs(db: string, coll: string, index: string)
    ensures IdOf(IndexKey(db, coll, Replace(index))) == MakeId(DOC_INDEX, Path([db, coll, index]))
  {
    PathOfThree(db, coll, index);
    PathOfThree(db, coll, Replace(index));
    ReplaceConcat(db + "/" + coll + "/", index);
    ReplaceConcat(db + "/" + coll + "/", Replace(index));
    NoSlashLeft(index);
    ReplaceSlashFree(Replace(index));
  }

  lemma PathOfThree(a: string, b: string, c: string)
    ensures Path([a, b, c]) == a + "/" + b + "/" + c
  {
    assert [a, b, c][1..] == [b, c] && [b, c][1..] == [c];
    assert Path([b, c]) == b + "/" + c;
  }

  /** An input. */
  lemma IndexNamesCollide(db: string, coll: string)
    ensures MakeId(DOC_INDEX, Path([db, coll, "a/b"])) == MakeId(DOC_INDEX, Path([db, coll, "a__b"]))
  {
    IndexIdIs(db, coll, "a/b");
    IndexIdIs(db, coll, "a__b");
    assert Replace("a/b") == "a__b" == Replace("a__b");
  }

  /** No slash in any name; all names but the last are clean; other documents
      carry one of their own types. */
  ghost predicate CleanKey(key: DocKey) {
    && (forall n <- Names(key) :: '/' !in n)
    && (forall i | 0 <= i < |Names(key)| - 1 :: Clean(Names(key)[i]))
    && (key.OtherKey? ==> key.docType in {DOC_USER, DOC_ROLE, DOC_IMPORT})
  }

  /** On clean keys, an id names one document key. */
  lemma IdInjective(k: DocKey, l: DocKey)
    requires CleanKey(k) && CleanKey(l) && IdOf(k) == IdOf(l)
    ensures k == l
  {
    TypeRecovered(TypeName(k), Path(Names(k)));
    TypeRecovered(TypeName(l), Path(Names(l)));
    assert TypeName(k) == TypeName(l);
    TypesTell(k, l);
    assert |Names(k)| == |Names(l)|;
    forall n | n in Names(k) + Names(l) ensures '/' !in n {
      assert n in Names(k) || n in Names(l);
    }
    MakeIdInjective(TypeName(k), Names(k), TypeName(l), Names(l));
    NamesTell(k, l);
  }

  lemma CleanIndexKey(db: string, coll: string, index: string)
    requires Clean(db) && Clean(coll) && '/' !in db && '/' !in coll && '/' !in index
    ensures CleanKey(IndexKey(db, coll, index))
  {
  }

  /** Two index names of a collection share an id exactly when they differ only
      in "/" for "__". */
  lemma IndexIdsCollideIff(db: string, coll: string, i: string, j: string)
    requires Clean(db) && Clean(coll) && '/' !in db && '/' !in coll
    ensures MakeId(DOC_INDEX, Path([db, coll, i])) == MakeId(DOC_INDEX, Path([db, coll, j])) <==> Replace(i) == Replace(j)
  {
    hide MakeId, Path, Replace, CleanKey, Clean, IdOf;
    IndexIdIs(db, coll, i);
    IndexIdIs(db, coll, j);
    NoSlashLeft(i);
    NoSlashLeft(j);
    CleanIndexKey(db, coll, Replace(i));
    CleanIndexKey(db, coll, Replace(j));
    if IdOf(IndexKey(db, coll, Replace(i))) == IdOf(IndexKey(db, coll, Replace(j))) {
      IdInjective(IndexKey(db, coll, Replace(i)), IndexKey(db, coll, Replace(j)));
    }
  }

  lemma TypesTell(k: DocKey, l: DocKey)
    requires CleanKey(k) && CleanKey(l) && TypeName(k) == TypeName(l)
    ensures |Names(k)| == |Names(l)|
    ensures k.DatabaseKey? == l.DatabaseKey? && k.CollectionKey? == l.CollectionKey? && k.PartitionKey? == l.PartitionKey?
    ensures k.AliasKey? == l.AliasKey? && k.IndexKey? == l.IndexKey? && k.LoadKey? == l.LoadKey?
  {
  }

  lemma NamesTell(k: DocKey, l: DocKey)
    requires TypeName(k) == TypeName(l) && Names(k) == Names(l) && |Names(k)| == |Names(l)|
    requires k.DatabaseKey? == l.DatabaseKey? && k.CollectionKey? == l.CollectionKey? && k.PartitionKey? == l.PartitionKey?
    requires k.AliasKey? == l.AliasKey? && k.IndexKey? == l.IndexKey? && k.LoadKey? == l.LoadKey?
    ensures k == l
  {
  }

  // ---------- the flat store as a set of documents ----------

  function Rows(m: Docs): Catalog {
    set id | id in m :: m[id]
  }

  /** Every document is filed under its own id, which is clean. */
  ghost predicate Filed(m: Docs) {
    forall id <- m :: CleanKey(KeyOf(m[id])) && IdOf(KeyOf(m[id])) == id
  }

  lemma FiledIsKeyed(m: Docs)
    requires Filed(m)
    ensures Keyed(Rows(m))
    ensures forall d <- Rows(m) :: IdOf(KeyOf(d)) in m && m[IdOf(KeyOf(d))] == d
  {
  }

  /** Looking up an id is asking for a key. */
  lemma LookupRefines(m: Docs, key: DocKey)
    requires Filed(m) && CleanKey(key)
    ensures IdOf(key) in m <==> Has(Rows(m), key)
    ensures IdOf(key) in m ==> m[IdOf(key)] in Rows(m) && KeyOf(m[IdOf(key)]) == key
  {
    var id := IdOf(key);
    if id in m {
      IdInjective(KeyOf(m[id]), key);
      assert m[id] in Rows(m);
    }
    if d :| d in Rows(m) && KeyOf(d) == key {
      FiledIsKeyed(m);
    }
  }

  /** Storing a document under its id is a Put. */
  lemma StoreRefines(m: Docs, d: Doc)
    requires Filed(m) && CleanKey(KeyOf(d))
    ensures var m' := m[IdOf(KeyOf(d)) := d]; Filed(m') && Rows(m') == Put(Rows(m), d)
  {
    var id := IdOf(KeyOf(d));
    var m' := m[id := d];
    forall e ensures e in Rows(m') <==> e in Put(Rows(m), d) {
      if e in Rows(m') && e != d {
        var i :| i in m' && m'[i] == e;
        assert i != id && m[i] == e;
        assert KeyOf(e) != KeyOf(d);
      }
      if e in Put(Rows(m), d) && e != d {
        var i :| i in m && m[i] == e;
        if i == id {
          IdInjective(KeyOf(e), KeyOf(d));
        }
        assert m'[i] == e;
      }
      if e == d {
        assert m'[id] == e;
      }
    }
  }

  /** Removing an id is a Delete. */
  lemma RemoveRefines(m: Docs, key: DocKey)
    requires Filed(m) && CleanKey(key)
    ensures var m' := m - {IdOf(key)}; Filed(m') && Rows(m') == Delete(Rows(m), key)
  {
    var id := IdOf(key);
    var m' := m - {id};
    forall e ensures e in Rows(m') <==> e in Delete(Rows(m), key) {
      if e in Rows(m') {
        var i :| i in m' && m'[i] == e;
        assert m[i] == e && KeyOf(e) != key;
      }
      if e in Delete(Rows(m), key) {
        var i :| i in m && m[i] == e;
        if i == id {
          IdInjective(KeyOf(e), key);
        }
        assert i in m' && m'[i] == e;
      }
    }
  }
}
