/** Partition directories, the handles opened on them, and the state of one
    process-local handle cache.

    Every function below is one `with self._lock` block of
    `CollectionManager`, as a function on values.  The class in
    CollectionManager.dfy is proved against these functions, and the
    interleaving model in Protocol.dfy runs them one at a time.
 */
module Partitions {
  import opened Wrappers

  /** The cache key "db/collection/partition" as a triple (see KeyText). */
  datatype Key = Key(db: string, coll: string, part: string)

  /** The partition part of the key that fences a whole collection. */
  const ANY_PART := "*"

  const DEFAULT_PARTITION := "_default"

  /** A partition directory: `born` is the event that created it, `version` the
      event of the last write that reached it, and `wal` says whether an
      unflushed log file is left. */
  datatype PartFile = PartFile(born: nat, version: nat, wal: bool)

  /** A missing key is a directory that does not exist. */
  type Disk = map<Key, PartFile>

  /** An engine handle: the event at which it was opened (its identity) and the
      version of the partition that it shows. */
  datatype Handle = Handle(openedAt: nat, version: nat)

  datatype Manager = Manager(readOnly: bool, handles: map<Key, Handle>, fenced: set<Key>)

  // What the engine answers.  `wal` is the state of the log afterwards.
  datatype OpenAnswer = OpenOk(wal: bool) | LockConflict | OpenBroken
  datatype FlushAnswer = FlushAnswer(ok: bool, wal: bool)

  predicate HasWal(disk: Disk, k: Key) {
    k in disk && disk[k].wal
  }

  function SetWal(disk: Disk, k: Key, wal: bool): Disk {
    if k in disk then disk[k := disk[k].(wal := wal)] else disk
  }

  /** A write at event `now`: a new version, and a log file. */
  function Written(f: PartFile, now: nat): PartFile {
    f.(version := now, wal := true)
  }

  /** A cached handle holds the engine's lock on the directory that is on disk:
      it was not opened on an earlier directory of the same name. */
  predicate Attached(m: Manager, disk: Disk, k: Key) {
    k in m.handles && k in disk && m.handles[k].openedAt >= disk[k].born
  }

  function Keys(db: string, coll: string, parts: seq<string>): set<Key> {
    set p | p in parts :: Key(db, coll, p)
  }

  /** `partitionNames or [DEFAULT_PARTITION]` */
  function OrDefault(parts: seq<string>): (named: seq<string>)
    ensures |parts| > 0 ==> named == parts
    ensures |parts| == 0 ==> named == ["_default"]
  {
    if parts == [] then [DEFAULT_PARTITION] else parts
  }

  predicate InCollection(k: Key, db: string, coll: string) {
    k.db == db && k.coll == coll
  }

  predicate IsFenced(m: Manager, k: Key) {
    k in m.fenced || Key(k.db, k.coll, ANY_PART) in m.fenced
  }

  /** `parts == []` stands for both `None` and the empty list. */
  function Fence(m: Manager, db: string, coll: string, parts: seq<string>): Manager {
    if parts != [] then
      m.(fenced := m.fenced + Keys(db, coll, parts), handles := m.handles - Keys(db, coll, parts))
    else
      m.(fenced := m.fenced + {Key(db, coll, ANY_PART)},
         handles := map k | k in m.handles && !InCollection(k, db, coll) :: m.handles[k])
  }

  function Unfence(m: Manager, db: string, coll: string, parts: seq<string>): Manager {
    if parts != [] then
      m.(fenced := m.fenced - {Key(db, coll, ANY_PART)} - Keys(db, coll, parts))
    else
      m.(fenced := set k | k in m.fenced && !InCollection(k, db, coll))
  }

  function Close(m: Manager, k: Key): Manager {
    m.(handles := m.handles - {k})
  }

  function CloseCollection(m: Manager, db: string, coll: string): Manager {
    m.(handles := map k | k in m.handles && !InCollection(k, db, coll) :: m.handles[k])
  }

  // ---------- open_partition: its two locked blocks ----------

  datatype First = FencedOut | Cached(h: Handle) | Miss(m: Manager, popped: Option<Handle>)

  function FirstBlock(m: Manager, k: Key, force: bool, allowFenced: bool): First {
    if m.readOnly && !allowFenced && IsFenced(m, k) then FencedOut
    else if k in m.handles then
      if force then Miss(Close(m, k), Some(m.handles[k])) else Cached(m.handles[k])
    else Miss(m, None)
  }

  datatype OpenError = NotFound | Fenced | PendingWal | Locked | Broken

  datatype Second = Fail(error: OpenError) | Hit(h: Handle) | Opened(m: Manager, disk: Disk, h: Handle)

  function SecondBlock(m: Manager, disk: Disk, now: nat, k: Key, allowFenced: bool, answer: OpenAnswer): Second {
    if m.readOnly && !allowFenced && IsFenced(m, k) then Fail(Fenced)
    else if k in m.handles then Hit(m.handles[k])
    else if m.readOnly && HasWal(disk, k) then Fail(PendingWal)
    else if answer.LockConflict? then Fail(Locked)
    else if answer.OpenBroken? || k !in disk then Fail(Broken)
    else
      var h := Handle(now, disk[k].version);
      Opened(m.(handles := m.handles[k := h]), if m.readOnly then disk else SetWal(disk, k, answer.wal), h)
  }

  // ---------- no handle under a fence ----------

  /** No cached handle is fenced under its own name. */
  ghost predicate NamedExclusion(m: Manager) {
    forall k <- m.handles :: k !in m.fenced
  }

  /** No cached handle is fenced in any way. */
  ghost predicate Exclusion(m: Manager) {
    forall k <- m.handles :: !IsFenced(m, k)
  }

  /** `/internal/close` always leaves every partition it names closed and
      fenced, and a collection-wide one leaves the whole collection so. */
  lemma FenceCloses(m: Manager, db: string, coll: string, parts: seq<string>, k: Key)
    requires if parts != [] then k in Keys(db, coll, parts) else InCollection(k, db, coll)
    ensures var f := Fence(m, db, coll, parts);
            IsFenced(f, k) && k !in f.handles && (parts != [] ==> k in f.fenced)
  {
  }

  /** Closing a collection closes its partitions, in whatever state, and no other. */
  lemma CloseCollectionCloses(m: Manager, db: string, coll: string, k: Key)
    ensures var n := CloseCollection(m, db, coll);
            && (k in n.handles <==> k in m.handles && !(k.db == db && k.coll == coll))
            && (k in n.handles ==> n.handles[k] == m.handles[k])
            && n.fenced == m.fenced && n.readOnly == m.readOnly
  {
  }

  /** A fence step keeps "no handle under a fence" exactly when it does not
      spell the wildcard as a partition name, or no handle is left for that
      wildcard to cover.  The literal name "*" adds the collection-wide fence
      without closing the collection. */
  lemma FenceKeepsExclusionIff(m: Manager, db: string, coll: string, parts: seq<string>)
    requires Exclusion(m)
    ensures Exclusion(Fence(m, db, coll, parts)) <==>
            (ANY_PART !in parts || forall k <- m.handles :: InCollection(k, db, coll) ==> k.part in parts)
  {
    var f := Fence(m, db, coll, parts);
    if parts != [] {
      assert forall k <- m.handles :: InCollection(k, db, coll) && k.part in parts ==> k in Keys(db, coll, parts);
      if ANY_PART in parts {
        assert Key(db, coll, ANY_PART) in Keys(db, coll, parts);
        if k :| k in m.handles && InCollection(k, db, coll) && k.part !in parts {
          assert k in f.handles && IsFenced(f, k);
        }
      }
      forall k | k in f.handles && (ANY_PART !in parts || !InCollection(k, db, coll))
        ensures !IsFenced(f, k)
      {
        assert k in m.handles && !IsFenced(m, k);
      }
    }
  }

  /** A concrete fence that breaks it: one open partition, fenced by "*". */
  lemma LiteralStarBreaksExclusion()
    ensures var k := Key("default", "c1", "p1");
            var m := Manager(true, map[k := Handle(0, 0)], {});
            Exclusion(m) && !Exclusion(Fence(m, "default", "c1", ["*"]))
  {
    var k := Key("default", "c1", "p1");
    var m := Manager(true, map[k := Handle(0, 0)], {});
    var f := Fence(m, "default", "c1", ["*"]);
    assert "*"[0] != "p1"[0];
    assert "*" != "p1";
    assert k in f.handles;
    assert "*" in ["*"];
    assert Key("default", "c1", "*") in Keys("default", "c1", ["*"]);
  }

  /** Fences are not counted, and every unfence drops the collection-wide one:
      unfencing what was fenced restores the fences exactly when none of those
      it drops stood before. */
  lemma UnfenceUndoesFenceIff(m: Manager, db: string, coll: string, parts: seq<string>)
    ensures Unfence(Fence(m, db, coll, parts), db, coll, parts).fenced == m.fenced <==>
            forall k <- m.fenced :: InCollection(k, db, coll) ==> parts != [] && k.part != ANY_PART && k.part !in parts
  {
  }

  /** The second block of open_partition is the only place where the Reader
      opens, and it opens only an unfenced partition without a log file, at the
      version that is on disk at that moment. */
  lemma ReaderOpensOnlyCleanUnfenced(m: Manager, disk: Disk, now: nat, k: Key, answer: OpenAnswer)
    requires m.readOnly
    ensures var r := SecondBlock(m, disk, now, k, false, answer);
            r.Opened? <==> !IsFenced(m, k) && k !in m.handles && k in disk && !HasWal(disk, k) && answer.OpenOk?
    ensures var r := SecondBlock(m, disk, now, k, false, answer);
            r.Opened? ==> r.h == Handle(now, disk[k].version) && r.disk == disk
                          && r.m.handles == m.handles[k := r.h] && r.m.fenced == m.fenced
  {
  }
}
