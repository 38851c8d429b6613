/** The Reader's handlers and the Writer's data operations, run without
    interference, on the two handle caches and the data directory they share. */
module HandOver {
  import opened Wrappers
  import opened Partitions
  import C = CollectionManager
  import P = Protocol

  /** What one reopening on the Reader meets: the Writer's seal before it, and
      the engine's open. */
  datatype Reading = Reading(seal: bool, open: C.OpenEnv)

  /** One engine write: did it reach the disk, and did it return. */
  datatype EngineAnswer = EngineAnswer(wrote: bool, ok: bool)

  /** What the body of a Writer operation meets at its n-th partition or call. */
  datatype Writing = Writing(open: nat -> C.OpenEnv, write: nat -> EngineAnswer, closing: nat -> FlushAnswer)

  /** What sealing the n-th partition afterwards meets. */
  datatype Sealing = Sealing(open: nat -> C.OpenEnv, inPlace: nat -> FlushAnswer, closing: nat -> FlushAnswer)

  /** No read-only handle is closed with a flush, so this answer is never asked for. */
  const NO_FLUSH := FlushAnswer(true, false)

  /** `k` is closed, or shows exactly what is on disk through a handle opened since event `t0`. */
  ghost predicate ClosedOrCurrent(m: Manager, disk: Disk, k: Key, t0: nat) {
    k in m.handles ==> k in disk && m.handles[k].version == disk[k].version && m.handles[k].openedAt >= t0
  }

  /** `k` is closed, or shows exactly what is on disk with no log file beside it. */
  ghost predicate Shows(m: Manager, disk: Disk, k: Key) {
    k in m.handles ==> k in disk && m.handles[k].version == disk[k].version && !disk[k].wal
  }

  /** The engine lets the Reader open every partition named, at the first attempt. */
  ghost predicate Reopens(env: nat -> C.OpenEnv, disk: Disk, db: string, coll: string, parts: seq<string>) {
    forall i | 0 <= i < |parts| :: env(i).open(0).OpenOk? && Key(db, coll, parts[i]) in disk
  }

  /** The engine lets the Reader open `k` at the first attempt, with no log file in the way. */
  ghost predicate Opens(disk: Disk, k: Key, env: C.OpenEnv) {
    k in disk && !HasWal(disk, k) && env.open(0).OpenOk?
  }

  /** Every partition but those in `ks` has the handle it had. */
  ghost predicate SameElsewhere(m: Manager, m': Manager, ks: set<Key>) {
    forall l :: l !in ks ==> (l in m'.handles <==> l in m.handles) && (l in m'.handles ==> m'.handles[l] == m.handles[l])
  }

  /** A seal that clears the log file, and an engine that opens at once. */
  predicate Works(env: Reading) {
    !env.seal && env.open.open(0).OpenOk?
  }

  /** Of the partitions, those that exist and are not fenced are open. */
  ghost predicate AllOpen(m: Manager, disk: Disk, ks: set<Key>) {
    forall k <- ks :: k in disk && !IsFenced(m, k) ==> k in m.handles
  }

  // ---------- Reader ----------

  /** What one reopening does to one partition of the Reader. */
  method Reopen(reader: C.CollectionManager, k: Key, env: C.OpenEnv) returns (r: Result<Handle, OpenError>)
    requires reader.readOnly
    modifies reader`handles, reader.storage
    ensures reader.fenced == old(reader.fenced) && reader.storage.files == old(reader.storage.files)
    ensures reader.storage.now >= old(reader.storage.now)
    ensures forall l :: l != k ==> (l in reader.handles <==> l in old(reader.handles))
                                   && (l in reader.handles ==> reader.handles[l] == old(reader.handles)[l])
    ensures r.Success? ==>
              !IsFenced(old(reader.State()), k) && k in reader.storage.files && !HasWal(reader.storage.files, k)
              && k in reader.handles && reader.handles[k] == r.value
              && r.value == Handle(old(reader.storage.now), reader.storage.files[k].version)
    ensures r.Failure? && k in reader.handles ==> reader.State() == old(reader.State())
    ensures r.Failure? && k in reader.storage.files && !IsFenced(old(reader.State()), k) ==> k !in reader.handles
    ensures HasWal(reader.storage.files, k) ==> r.Failure?
    ensures r.Success? <==> k in reader.storage.files && !HasWal(reader.storage.files, k) && !IsFenced(old(reader.State()), k)
                            && env.open(0).OpenOk?
  {
    assert C.GetsThrough(env.open, 0, 0) <==> env.open(0).OpenOk?;
    if k in reader.storage.files {
      C.OpenPartitionMeaning(reader.State(), reader.storage.files, reader.storage.now, k, true, false, 0, env);
    }
    ghost var now := reader.storage.now;
    r := reader.OpenPartition(k, true, false, 0, env);
  }

  /** `/internal/open`: lift the fences, then reopen what has no log file; the
      first failure ends the handler. */
  method InternalOpen(reader: C.CollectionManager, db: string, coll: string, partitionNames: seq<string>, env: nat -> C.OpenEnv)
    returns (ok: bool)
    requires reader.readOnly
    modifies reader`handles, reader`fenced, reader.storage
    ensures reader.storage.files == old(reader.storage.files) && reader.storage.now >= old(reader.storage.now)
    ensures reader.fenced == Unfence(old(reader.State()), db, coll, OrDefault(partitionNames)).fenced
    // A named partition that was closed comes out closed, or current with no log file.
    ensures forall k <- Keys(db, coll, OrDefault(partitionNames)) ::
              k !in old(reader.handles) ==> ClosedOrCurrent(reader.State(), reader.storage.files, k, old(reader.storage.now))
                                            && (HasWal(reader.storage.files, k) ==> k !in reader.handles)
    // What showed the disk still does.
    ensures forall k <- Keys(db, coll, OrDefault(partitionNames)) ::
              old(Shows(reader.State(), reader.storage.files, k)) ==> Shows(reader.State(), reader.storage.files, k)
    ensures Reopens(env, old(reader.storage.files), db, coll, OrDefault(partitionNames)) ==> ok
    // Success means every named partition without a log file is open.
    ensures ok ==> forall k <- Keys(db, coll, OrDefault(partitionNames)) :: !HasWal(reader.storage.files, k) ==> k in reader.handles
    ensures forall k :: k !in Keys(db, coll, OrDefault(partitionNames)) ==>
              (k in reader.handles <==> k in old(reader.handles))
              && (k in reader.handles ==> reader.handles[k] == old(reader.handles)[k])
  {
    var parts := OrDefault(partitionNames);
    reader.UnfencePartitions(db, coll, parts);
    for i := 0 to |parts|
      invariant reader.storage.files == old(reader.storage.files) && reader.storage.now >= old(reader.storage.now)
      invariant reader.fenced == Unfence(old(reader.State()), db, coll, parts).fenced
      invariant forall k <- Keys(db, coll, parts) ::
                  k !in old(reader.handles) ==> ClosedOrCurrent(reader.State(), reader.storage.files, k, old(reader.storage.now))
                                                && (HasWal(reader.storage.files, k) ==> k !in reader.handles)
      invariant forall k <- Keys(db, coll, parts) ::
                  old(Shows(reader.State(), reader.storage.files, k)) ==> Shows(reader.State(), reader.storage.files, k)
      invariant forall j | 0 <= j < i ::
                  !HasWal(reader.storage.files, Key(db, coll, parts[j])) ==> Key(db, coll, parts[j]) in reader.handles
      invariant forall k :: k !in Keys(db, coll, parts) ==>
                  (k in reader.handles <==> k in old(reader.handles))
                  && (k in reader.handles ==> reader.handles[k] == old(reader.handles)[k])
    {
      var k := Key(db, coll, parts[i]);
      assert k in Keys(db, coll, parts);
      UnfencedNow(old(reader.State()), db, coll, parts, k);
      if !HasWal(reader.storage.files, k) {
        var r := Reopen(reader, k, env(i));
        if r.Failure? {
          return false;
        }
      }
    }
    return true;
  }

  lemma UnfencedNow(m: Manager, db: string, coll: string, parts: seq<string>, k: Key)
    requires k in Keys(db, coll, parts)
    ensures !IsFenced(Unfence(m, db, coll, parts), k)
  {
  }

  /** `/internal/close`: with a fence by default, plain closes otherwise. */
  method InternalClose(reader: C.CollectionManager, db: string, coll: string, parts: seq<string>, fence: Option<bool>)
    requires reader.readOnly
    modifies reader`handles, reader`fenced, reader.storage`files
    ensures reader.storage.files == old(reader.storage.files)
    ensures fence != Some(false) ==> reader.State() == Fence(old(reader.State()), db, coll, parts)
    ensures fence == Some(false) ==> reader.fenced == old(reader.fenced)
    ensures forall k :: (if parts != [] then k in Keys(db, coll, parts) else InCollection(k, db, coll)) ==> k !in reader.handles
    ensures forall k <- old(reader.handles) ::
              !(if parts != [] then k in Keys(db, coll, parts) else InCollection(k, db, coll))
              ==> k in reader.handles && reader.handles[k] == old(reader.handles)[k]
  {
    if fence != Some(false) {
      reader.FencePartitions(db, coll, parts, _ => NO_FLUSH);
    } else if parts != [] {
      for i := 0 to |parts|
        invariant reader.storage.files == old(reader.storage.files) && reader.fenced == old(reader.fenced)
        invariant reader.handles == old(reader.handles) - Keys(db, coll, parts[..i])
      {
        var k := Key(db, coll, parts[i]);
        assert Keys(db, coll, parts[..i + 1]) == Keys(db, coll, parts[..i]) + {k} by {
          assert parts[..i + 1] == parts[..i] + [parts[i]];
        }
        var _ := reader.ClosePartition(k, None, NO_FLUSH);
      }
      assert parts[..|parts|] == parts;
    } else {
      reader.CloseAllPartitions(db, coll, _ => NO_FLUSH);
    }
  }

  /** One turn of the refresh loop on one partition.  A fenced one is left as it
      is; any other ends closed or current. */
  method VisitPart(reader: C.CollectionManager, k: Key, env: Reading)
    requires reader.readOnly
    modifies reader`handles, reader.storage
    ensures reader.fenced == old(reader.fenced) && reader.storage.now >= old(reader.storage.now)
    ensures IsFenced(old(reader.State()), k) ==> reader.State() == old(reader.State())
    ensures !IsFenced(old(reader.State()), k) ==>
              ClosedOrCurrent(reader.State(), reader.storage.files, k, old(reader.storage.now))
              && (HasWal(reader.storage.files, k) ==> k !in reader.handles)
    // A log file is there afterwards exactly when there was one and the seal left one; without one the partition is reopened.
    ensures HasWal(reader.storage.files, k) <==>
              HasWal(old(reader.storage.files), k) && (IsFenced(old(reader.State()), k) || env.seal)
    ensures !IsFenced(old(reader.State()), k) && Opens(reader.storage.files, k, env.open) ==> k in reader.handles
    ensures Works(env) ==> AllOpen(reader.State(), reader.storage.files, {k}) || IsFenced(reader.State(), k)
    ensures SameElsewhere(old(reader.State()), reader.State(), {k})
    ensures SameVersions(old(reader.storage.files), reader.storage.files)
            && forall l <- reader.storage.files :: l != k ==> reader.storage.files[l] == old(reader.storage.files)[l]
  {
    if IsFenced(reader.State(), k) {
      return;
    }
    var _ := reader.ClosePartition(k, Some(false), NO_FLUSH);
    if HasWal(reader.storage.files, k) {
      reader.storage.files := SetWal(reader.storage.files, k, env.seal);
    }
    if HasWal(reader.storage.files, k) {
      return;
    }
    var _ := Reopen(reader, k, env.open);
  }

  /** A handle on `k`, if any, was opened at event `t0` or later. */
  ghost predicate Fresh(m: Manager, k: Key, t0: nat) {
    k in m.handles ==> m.handles[k].openedAt >= t0
  }

  /** What a pass promises of one catalog entry it visited: fresh, unless it was
      fenced and had a handle when the pass began. */
  ghost predicate VisitFresh(m: Manager, v: P.Visit, t0: nat, before: Manager) {
    match v
    case CatalogRead => true
    case NotLoaded(db, coll) => forall k <- m.handles :: InCollection(k, db, coll) ==> Fresh(m, k, t0)
    case Loaded(db, coll, parts) => forall p <- parts :: FreshOrMissed(m, Key(db, coll, p), t0, before)
  }

  ghost predicate FreshOrMissed(m: Manager, k: Key, t0: nat, before: Manager) {
    Fresh(m, k, t0) || (IsFenced(before, k) && k in before.handles)
  }

  /** Nothing that was fresh has become older. */
  ghost predicate OnlyFresher(m: Manager, m': Manager, t0: nat) {
    forall k <- m'.handles :: (k in m.handles && m'.handles[k] == m.handles[k]) || m'.handles[k].openedAt >= t0
  }

  lemma VisitStaysFresh(m: Manager, m': Manager, v: P.Visit, t0: nat, before: Manager)
    requires OnlyFresher(m, m', t0) && VisitFresh(m, v, t0, before)
    ensures VisitFresh(m', v, t0, before)
  {
  }

  method VisitLoaded(reader: C.CollectionManager, db: string, coll: string, parts: seq<string>, env: nat -> Reading,
                     ghost before: Manager, ghost t0: nat)
    requires reader.readOnly && reader.fenced == before.fenced && reader.storage.now >= t0
    requires OnlyFresher(before, reader.State(), t0)
    modifies reader`handles, reader.storage
    ensures reader.fenced == old(reader.fenced) && reader.storage.now >= old(reader.storage.now)
    ensures SameVersions(old(reader.storage.files), reader.storage.files)
    ensures OnlyFresher(old(reader.State()), reader.State(), t0) && OnlyFresher(before, reader.State(), t0)
    ensures VisitFresh(reader.State(), P.Loaded(db, coll, parts), t0, before)
    ensures (forall j: nat :: Works(env(j))) ==> AllOpen(reader.State(), reader.storage.files, Keys(db, coll, parts))
    ensures SameElsewhere(old(reader.State()), reader.State(), Keys(db, coll, parts))
  {
    hide IsFenced, HasWal, Opens, Works, Keys, SameElsewhere;
    ElsewhereSame(reader.State(), Keys(db, coll, parts));
    NoKeys(db, coll, parts[..0]);
    for j := 0 to |parts|
      invariant reader.fenced == before.fenced && reader.storage.now >= old(reader.storage.now)
      invariant SameVersions(old(reader.storage.files), reader.storage.files)
      invariant OnlyFresher(old(reader.State()), reader.State(), t0) && OnlyFresher(before, reader.State(), t0)
      invariant forall g | 0 <= g < j :: FreshOrMissed(reader.State(), Key(db, coll, parts[g]), t0, before)
      invariant (forall j: nat :: Works(env(j))) ==> AllOpen(reader.State(), reader.storage.files, Keys(db, coll, parts[..j]))
      invariant SameElsewhere(old(reader.State()), reader.State(), Keys(db, coll, parts))
    {
      var k := Key(db, coll, parts[j]);
      ghost var between, disk, t1 := reader.State(), reader.storage.files, reader.storage.now;
      KeysOneMore(db, coll, parts, j);
      VisitPart(reader, k, env(j));
      OthersStay(old(reader.State()), between, reader.State(), reader.storage.files, k, t0, t1);
      OthersStay(before, between, reader.State(), reader.storage.files, k, t0, t1);
      forall g | 0 <= g < j ensures FreshOrMissed(reader.State(), Key(db, coll, parts[g]), t0, before) {
        FreshStays(before, between, reader.State(), reader.storage.files, Key(db, coll, parts[g]), k, t0, t1);
      }
      VisitedFresh(before, between, reader.State(), reader.storage.files, k, t0, t1);
      ElsewhereToo(old(reader.State()), between, reader.State(), Keys(db, coll, parts), k);
      if forall j: nat :: Works(env(j)) {
        OpenOneMore(between, reader.State(), disk, reader.storage.files, Keys(db, coll, parts[..j]), k);
      }
    }
    assert parts[..|parts|] == parts;
  }

  lemma OpenOneMore(m: Manager, m': Manager, disk: Disk, disk': Disk, ks: set<Key>, k: Key)
    requires AllOpen(m, disk, ks) && SameElsewhere(m, m', {k}) && m'.fenced == m.fenced && disk'.Keys == disk.Keys
    requires AllOpen(m', disk', {k}) || IsFenced(m', k)
    ensures AllOpen(m', disk', ks + {k})
  {
  }

  lemma ElsewhereSame(m: Manager, ks: set<Key>)
    ensures SameElsewhere(m, m, ks)
  {
  }

  lemma NoKeys(db: string, coll: string, parts: seq<string>)
    requires parts == []
    ensures Keys(db, coll, parts) == {}
  {
  }

  /** What a visit may do to the handle of another partition. */
  lemma OthersStay(before: Manager, m: Manager, m': Manager, disk': Disk, k: Key, t0: nat, now: nat)
    requires OnlyFresher(before, m, t0) && SameElsewhere(m, m', {k}) && now >= t0
    requires (k in m'.handles ==> k in m.handles && m'.handles[k] == m.handles[k]) || ClosedOrCurrent(m', disk', k, now)
    ensures OnlyFresher(before, m', t0)
  {
  }

  lemma FreshStays(before: Manager, m: Manager, m': Manager, disk': Disk, l: Key, k: Key, t0: nat, now: nat)
    requires FreshOrMissed(m, l, t0, before) && SameElsewhere(m, m', {k}) && now >= t0
    requires (k in m'.handles ==> k in m.handles && m'.handles[k] == m.handles[k]) || ClosedOrCurrent(m', disk', k, now)
    ensures FreshOrMissed(m', l, t0, before)
  {
  }

  lemma VisitedFresh(before: Manager, m: Manager, m': Manager, disk': Disk, k: Key, t0: nat, now: nat)
    requires OnlyFresher(before, m, t0) && m.fenced == before.fenced && now >= t0
    requires if IsFenced(m, k) then m' == m else ClosedOrCurrent(m', disk', k, now)
    ensures FreshOrMissed(m', k, t0, before)
  {
  }

  lemma ElsewhereToo(m: Manager, m': Manager, n: Manager, ks: set<Key>, k: Key)
    requires SameElsewhere(m, m', ks) && SameElsewhere(m', n, {k}) && k in ks
    ensures SameElsewhere(m, n, ks)
  {
  }

  lemma KeysOneMore(db: string, coll: string, parts: seq<string>, i: nat)
    requires i < |parts|
    ensures Keys(db, coll, parts[..i + 1]) == Keys(db, coll, parts[..i]) + {Key(db, coll, parts[i])}
    ensures Key(db, coll, parts[i]) in Keys(db, coll, parts)
  {
  }

  /** One pass of the refresh loop, over what the catalog listed.  It goes on
      past every partition that fails, up to a catalog read that raises. */
  method RefreshPass(reader: C.CollectionManager, visits: seq<P.Visit>, readOk: nat -> bool, env: nat -> nat -> Reading)
    returns (done: nat)
    requires reader.readOnly
    modifies reader`handles, reader.storage
    ensures reader.fenced == old(reader.fenced)
    ensures done <= |visits| && (done < |visits| ==> visits[done] == P.CatalogRead && !readOk(done))
    ensures forall h | 0 <= h < done :: visits[h] == P.CatalogRead ==> readOk(h)
    ensures forall v <- visits[..done] :: VisitFresh(reader.State(), v, old(reader.storage.now), old(reader.State()))
    ensures Exclusion(old(reader.State())) ==>
              forall v, p | v in visits[..done] && v.Loaded? && p in v.parts ::
                Fresh(reader.State(), Key(v.db, v.coll, p), old(reader.storage.now))
    // When seals and openings work, what is loaded, exists and is not fenced is open afterwards.
    ensures (forall h: nat, j: nat :: Works(env(h)(j))) ==>
              forall v <- visits[..done] :: v.Loaded? && P.NotLoaded(v.db, v.coll) !in visits[..done] ==>
                AllOpen(reader.State(), reader.storage.files, Keys(v.db, v.coll, v.parts))
  {
    ghost var t0, before := reader.storage.now, reader.State();
    hide Works, AllOpen, VisitFresh, OnlyFresher, IsFenced, Keys, SameElsewhere, AllFresh, LoadedOpen;
    done := 0;
    NothingVisited(before, reader.storage.files, t0);
    while done < |visits|
      invariant done <= |visits|
      invariant reader.fenced == old(reader.fenced) && reader.storage.now >= t0 && OnlyFresher(before, reader.State(), t0)
      invariant SameVersions(old(reader.storage.files), reader.storage.files)
      invariant forall h | 0 <= h < done :: visits[h] == P.CatalogRead ==> readOk(h)
      invariant AllFresh(reader.State(), visits[..done], t0, before)
      invariant (forall h: nat, j: nat :: Works(env(h)(j))) ==> LoadedOpen(reader.State(), reader.storage.files, visits[..done])
    {
      ghost var between, disk := reader.State(), reader.storage.files;
      match visits[done] {
        case CatalogRead =>
          if !readOk(done) {
            break;
          }
          VisitedNothing(reader.State(), disk, visits[done], t0, before);
        case NotLoaded(db, coll) =>
          reader.CloseAllPartitions(db, coll, _ => NO_FLUSH);
          VisitedNotLoaded(between, db, coll, t0, before);
        case Loaded(db, coll, parts) =>
          VisitLoaded(reader, db, coll, parts, env(done), before, t0);
      }
      assert visits[..done + 1] == visits[..done] + [visits[done]];
      FreshOneMore(between, reader.State(), visits[..done], visits[done], t0, before);
      if forall h: nat, j: nat :: Works(env(h)(j)) {
        assert forall j: nat :: Works(env(done)(j));
        LoadedOneMore(between, reader.State(), disk, reader.storage.files, visits[..done], visits[done]);
      }
      done := done + 1;
    }
    PassFresh(reader.State(), visits[..done], t0, before);
    PassOpen(reader.State(), reader.storage.files, visits[..done]);
  }

  ghost predicate AllFresh(m: Manager, visited: seq<P.Visit>, t0: nat, before: Manager) {
    forall v <- visited :: VisitFresh(m, v, t0, before)
  }

  /** What was visited as loaded, and not as not loaded, is open. */
  ghost predicate LoadedOpen(m: Manager, disk: Disk, visited: seq<P.Visit>) {
    forall v <- visited :: v.Loaded? && P.NotLoaded(v.db, v.coll) !in visited ==> AllOpen(m, disk, Keys(v.db, v.coll, v.parts))
  }

  lemma NothingVisited(m: Manager, disk: Disk, t0: nat)
    ensures OnlyFresher(m, m, t0) && AllFresh(m, [], t0, m) && LoadedOpen(m, disk, [])
  {
  }

  lemma VisitedNothing(m: Manager, disk: Disk, v: P.Visit, t0: nat, before: Manager)
    requires v.CatalogRead?
    ensures VisitFresh(m, v, t0, before) && OnlyFresher(m, m, t0)
  {
  }

  lemma VisitedNotLoaded(m: Manager, db: string, coll: string, t0: nat, before: Manager)
    requires OnlyFresher(before, m, t0)
    ensures var m' := CloseCollection(m, db, coll);
            OnlyFresher(m, m', t0) && OnlyFresher(before, m', t0) && VisitFresh(m', P.NotLoaded(db, coll), t0, before)
  {
  }

  lemma FreshOneMore(m: Manager, m': Manager, visited: seq<P.Visit>, v: P.Visit, t0: nat, before: Manager)
    requires AllFresh(m, visited, t0, before) && OnlyFresher(m, m', t0) && VisitFresh(m', v, t0, before)
    ensures AllFresh(m', visited + [v], t0, before)
  {
    hide VisitFresh, OnlyFresher;
    forall u | u in visited ensures VisitFresh(m', u, t0, before) {
      VisitStaysFresh(m, m', u, t0, before);
    }
  }

  lemma LoadedOneMore(m: Manager, m': Manager, disk: Disk, disk': Disk, visited: seq<P.Visit>, v: P.Visit)
    requires LoadedOpen(m, disk, visited) && m'.fenced == m.fenced && disk'.Keys == disk.Keys
    requires v.CatalogRead? ==> m' == m
    requires v.NotLoaded? ==> m' == CloseCollection(m, v.db, v.coll)
    requires v.Loaded? ==> SameElsewhere(m, m', Keys(v.db, v.coll, v.parts)) && AllOpen(m', disk', Keys(v.db, v.coll, v.parts))
    ensures LoadedOpen(m', disk', visited + [v])
  {
    hide AllOpen, SameElsewhere, Keys;
    forall u | u in visited && u.Loaded? && P.NotLoaded(u.db, u.coll) !in visited + [v]
      ensures AllOpen(m', disk', Keys(u.db, u.coll, u.parts))
    {
      assert v in visited + [v];
      VisitKeepsOpen(m, m', disk, disk', v, u);
    }
  }

  lemma PassFresh(m: Manager, visited: seq<P.Visit>, t0: nat, before: Manager)
    requires AllFresh(m, visited, t0, before)
    ensures forall v <- visited :: VisitFresh(m, v, t0, before)
    ensures Exclusion(before) ==> forall v, p | v in visited && v.Loaded? && p in v.parts :: Fresh(m, Key(v.db, v.coll, p), t0)
  {
    forall v, p | v in visited && v.Loaded? && p in v.parts && Exclusion(before) ensures Fresh(m, Key(v.db, v.coll, p), t0) {
      assert FreshOrMissed(m, Key(v.db, v.coll, p), t0, before);
    }
  }

  lemma PassOpen(m: Manager, disk: Disk, visited: seq<P.Visit>)
    ensures LoadedOpen(m, disk, visited) ==>
              forall v <- visited :: v.Loaded? && P.NotLoaded(v.db, v.coll) !in visited ==> AllOpen(m, disk, Keys(v.db, v.coll, v.parts))
  {
  }

  /** A visit that works closes nothing that another one has opened, unless it is
      to the same collection as not loaded. */
  lemma VisitKeepsOpen(m: Manager, m': Manager, disk: Disk, disk': Disk, v: P.Visit, u: P.Visit)
    requires u.Loaded? && v != P.NotLoaded(u.db, u.coll) && AllOpen(m, disk, Keys(u.db, u.coll, u.parts))
    requires m'.fenced == m.fenced && disk'.Keys == disk.Keys
    requires v.CatalogRead? ==> m' == m
    requires v.NotLoaded? ==> m' == CloseCollection(m, v.db, v.coll)
    requires v.Loaded? ==> SameElsewhere(m, m', Keys(v.db, v.coll, v.parts)) && AllOpen(m', disk', Keys(v.db, v.coll, v.parts))
    ensures AllOpen(m', disk', Keys(u.db, u.coll, u.parts))
  {
  }

  /** The j-th element does not come again before position n. */
  ghost predicate LastAmong<T>(s: seq<T>, j: nat, n: nat)
    requires j < n <= |s|
  {
    forall h | j < h < n :: s[h] != s[j]
  }

  lemma LastOccurrence<T>(s: seq<T>, x: T) returns (i: nat)
    requires x in s
    ensures i < |s| && s[i] == x && LastAmong(s, i, |s|)
  {
    i := |s| - 1;
    while s[i] != x
      invariant i < |s| && (exists j | 0 <= j <= i :: s[j] == x) && forall h | i < h < |s| :: s[h] != x
      decreases i
    {
      i := i - 1;
    }
  }

  /** The Writer seals partitions: only their log flags change, each as the seal leaves it. */
  method SealAll(reader: C.CollectionManager, ks: seq<Key>, env: nat -> Reading)
    modifies reader.storage`files
    ensures SameVersions(old(reader.storage.files), reader.storage.files)
    ensures forall l <- reader.storage.files :: l !in ks ==> reader.storage.files[l] == old(reader.storage.files)[l]
    ensures forall i | 0 <= i < |ks| && ks[i] in reader.storage.files && LastAmong(ks, i, |ks|) ::
              HasWal(reader.storage.files, ks[i]) == env(i).seal
  {
    for i := 0 to |ks|
      invariant SameVersions(old(reader.storage.files), reader.storage.files)
      invariant forall l <- reader.storage.files :: l !in ks ==> reader.storage.files[l] == old(reader.storage.files)[l]
      invariant Sealed(reader.storage.files, ks, i, env)
    {
      SealNext(reader.storage.files, ks, i, env);
      reader.storage.files := SetWal(reader.storage.files, ks[i], env(i).seal);
    }
  }

  /** After the first n seals: each partition as its last seal left it. */
  ghost predicate Sealed(disk: Disk, ks: seq<Key>, n: nat, env: nat -> Reading) {
    n <= |ks| && forall j | 0 <= j < n && ks[j] in disk && LastAmong(ks, j, n) :: HasWal(disk, ks[j]) == env(j).seal
  }

  lemma SealNext(disk: Disk, ks: seq<Key>, n: nat, env: nat -> Reading)
    requires n < |ks| && Sealed(disk, ks, n, env)
    ensures var disk' := SetWal(disk, ks[n], env(n).seal);
            && Sealed(disk', ks, n + 1, env) && SameVersions(disk, disk')
            && forall l <- disk' :: l != ks[n] ==> disk'[l] == disk[l]
  {
    var disk' := SetWal(disk, ks[n], env(n).seal);
    forall j | 0 <= j <= n && ks[j] in disk' && LastAmong(ks, j, n + 1) ensures HasWal(disk', ks[j]) == env(j).seal {
      if j < n {
        assert ks[j] != ks[n] && LastAmong(ks, j, n);
        assert HasWal(disk, ks[j]) == env(j).seal;
      }
    }
  }

  ghost predicate SameVersions(disk: Disk, disk': Disk) {
    disk'.Keys == disk.Keys && forall k <- disk :: disk'[k] == disk[k].(wal := disk'[k].wal)
  }

  /** `close_partition(flush=False)` on each. */
  method CloseEach(reader: C.CollectionManager, ks: seq<Key>)
    requires reader.readOnly
    modifies reader`handles, reader.storage`files
    ensures reader.fenced == old(reader.fenced) && reader.storage.files == old(reader.storage.files)
    ensures reader.handles == old(reader.handles) - C.Elems(ks)
  {
    for i := 0 to |ks|
      invariant reader.fenced == old(reader.fenced) && reader.storage.files == old(reader.storage.files)
      invariant reader.handles == old(reader.handles) - C.Elems(ks[..i])
    {
      assert C.Elems(ks[..i + 1]) == C.Elems(ks[..i]) + {ks[i]} by {
        assert ks[..i + 1] == ks[..i] + [ks[i]];
      }
      var _ := reader.ClosePartition(ks[i], Some(false), NO_FLUSH);
    }
    assert ks[..|ks|] == ks;
  }

  /** What reopening leaves of `k`: closed, or open and current on an unfenced
      partition without a log file. */
  ghost predicate Reopened(m: Manager, disk: Disk, k: Key, t0: nat) {
    ClosedOrCurrent(m, disk, k, t0) && (k in m.handles ==> !HasWal(disk, k) && !IsFenced(m, k))
  }

  /** Reopen it when it has no log file; a failure is only logged.  `skipFenced`
      is the is_fenced check of the reload handler. */
  method ReopenOne(reader: C.CollectionManager, k: Key, skipFenced: bool, env: Reading, ghost t0: nat)
    requires reader.readOnly && reader.storage.now >= t0 && Reopened(reader.State(), reader.storage.files, k, t0)
    modifies reader`handles, reader.storage
    ensures reader.fenced == old(reader.fenced) && reader.storage.files == old(reader.storage.files)
    ensures reader.storage.now >= old(reader.storage.now)
    ensures Reopened(reader.State(), reader.storage.files, k, t0)
    ensures !IsFenced(reader.State(), k) && Opens(reader.storage.files, k, env.open) ==> k in reader.handles
    ensures SameElsewhere(old(reader.State()), reader.State(), {k})
  {
    if !(skipFenced && IsFenced(reader.State(), k)) && !HasWal(reader.storage.files, k) {
      var _ := Reopen(reader, k, env.open);
    }
  }

  method ReopenEach(reader: C.CollectionManager, ks: seq<Key>, skipFenced: bool, env: nat -> Reading)
    requires reader.readOnly && forall k <- ks :: k !in reader.handles
    modifies reader`handles, reader.storage
    ensures reader.fenced == old(reader.fenced) && reader.storage.files == old(reader.storage.files)
    ensures reader.storage.now >= old(reader.storage.now)
    ensures forall k <- ks :: Reopened(reader.State(), reader.storage.files, k, old(reader.storage.now))
    // What is not fenced and what the engine opens is open.
    ensures forall i | 0 <= i < |ks| && LastAmong(ks, i, |ks|) ::
              !IsFenced(reader.State(), ks[i]) && Opens(reader.storage.files, ks[i], env(i).open) ==> ks[i] in reader.handles
    ensures SameElsewhere(old(reader.State()), reader.State(), C.Elems(ks))
  {
    hide Opens, IsFenced, ClosedOrCurrent, HasWal, Reopened, OpenAgain, SameElsewhere;
    NothingElse(reader.State(), reader.storage.files, ks, env, old(reader.storage.now));
    for i := 0 to |ks|
      invariant reader.fenced == old(reader.fenced) && reader.storage.files == old(reader.storage.files)
      invariant reader.storage.now >= old(reader.storage.now)
      invariant forall k <- ks :: Reopened(reader.State(), reader.storage.files, k, old(reader.storage.now))
      invariant OpenAgain(reader.State(), reader.storage.files, ks, i, env)
      invariant SameElsewhere(old(reader.State()), reader.State(), C.Elems(ks))
    {
      ghost var before := reader.State();
      ReopenOne(reader, ks[i], skipFenced, env(i), old(reader.storage.now));
      OpenNext(before, reader.State(), reader.storage.files, ks, i, env);
      ElsewhereToo(old(reader.State()), before, reader.State(), C.Elems(ks), ks[i]);
      forall k | k in ks ensures Reopened(reader.State(), reader.storage.files, k, old(reader.storage.now)) {
        if k != ks[i] {
          StaysReopened(before, reader.State(), reader.storage.files, k, ks[i], old(reader.storage.now));
        }
      }
    }
    AllAgain(reader.State(), reader.storage.files, ks, env);
  }

  /** Of the first n, those whose last opening can work are open. */
  ghost predicate OpenAgain(m: Manager, disk: Disk, ks: seq<Key>, n: nat, env: nat -> Reading) {
    n <= |ks| && forall j | 0 <= j < n && LastAmong(ks, j, n) :: !IsFenced(m, ks[j]) && Opens(disk, ks[j], env(j).open) ==> ks[j] in m.handles
  }

  lemma AllAgain(m: Manager, disk: Disk, ks: seq<Key>, env: nat -> Reading)
    requires OpenAgain(m, disk, ks, |ks|, env)
    ensures forall i | 0 <= i < |ks| && LastAmong(ks, i, |ks|) ::
              !IsFenced(m, ks[i]) && Opens(disk, ks[i], env(i).open) ==> ks[i] in m.handles
  {
  }

  lemma OpenNext(m: Manager, m': Manager, disk: Disk, ks: seq<Key>, n: nat, env: nat -> Reading)
    requires n < |ks| && OpenAgain(m, disk, ks, n, env) && SameElsewhere(m, m', {ks[n]}) && m'.fenced == m.fenced
    requires !IsFenced(m', ks[n]) && Opens(disk, ks[n], env(n).open) ==> ks[n] in m'.handles
    ensures OpenAgain(m', disk, ks, n + 1, env)
  {
    hide Opens;
    forall j | 0 <= j < n && LastAmong(ks, j, n + 1)
      ensures !IsFenced(m', ks[j]) && Opens(disk, ks[j], env(j).open) ==> ks[j] in m'.handles
    {
      assert ks[j] != ks[n] && LastAmong(ks, j, n);
    }
  }

  /** Before the first opening. */
  lemma NothingElse(m: Manager, disk: Disk, ks: seq<Key>, env: nat -> Reading, t0: nat)
    requires forall k <- ks :: k !in m.handles
    ensures OpenAgain(m, disk, ks, 0, env) && SameElsewhere(m, m, C.Elems(ks)) && forall k <- ks :: Reopened(m, disk, k, t0)
  {
  }

  lemma StaysReopened(m: Manager, m': Manager, disk: Disk, k: Key, l: Key, t0: nat)
    requires Reopened(m, disk, k, t0) && m'.fenced == m.fenced && k != l && SameElsewhere(m, m', {l})
    ensures Reopened(m', disk, k, t0)
  {
  }

  /** _maybe_refresh on the Reader: close, have the Writer seal, reopen.  What is
      open afterwards was opened here and shows what is on disk. */
  method MaybeRefresh(reader: C.CollectionManager, db: string, coll: string, parts: seq<string>, refresh: bool, env: nat -> Reading)
    requires reader.readOnly
    modifies reader`handles, reader.storage
    ensures reader.fenced == old(reader.fenced) && SameVersions(old(reader.storage.files), reader.storage.files)
    ensures !refresh ==> reader.State() == old(reader.State()) && reader.storage.files == old(reader.storage.files)
    ensures refresh ==> forall p <- parts ::
              ClosedOrCurrent(reader.State(), reader.storage.files, Key(db, coll, p), old(reader.storage.now))
              && (Key(db, coll, p) in reader.handles ==>
                    !HasWal(reader.storage.files, Key(db, coll, p)) && !IsFenced(reader.State(), Key(db, coll, p)))
    // A partition is left with a log file exactly when the seal leaves one; sealed and not fenced, it is open again.
    ensures refresh ==> forall i | 0 <= i < |parts| && LastAmong(parts, i, |parts|) && Key(db, coll, parts[i]) in reader.storage.files ::
              var k := Key(db, coll, parts[i]);
              && HasWal(reader.storage.files, k) == env(i).seal
              && (!env(i).seal && !IsFenced(reader.State(), k) && env(i).open.open(0).OpenOk? ==> k in reader.handles)
    ensures forall l :: l !in Keys(db, coll, parts) ==>
              (l in reader.handles <==> l in old(reader.handles)) && (l in reader.handles ==> reader.handles[l] == old(reader.handles)[l])
  {
    if !refresh {
      return;
    }
    var ks := P.KeysOf(db, coll, parts);
    assert forall k :: k in ks <==> k in Keys(db, coll, parts) by {
      assert forall i | 0 <= i < |parts| :: ks[i] == Key(db, coll, parts[i]) && parts[i] in parts;
    }
    CloseEach(reader, ks);
    SealAll(reader, ks, env);
    ReopenEach(reader, ks, false, env);
    assert forall p <- parts :: Key(db, coll, p) in ks;
    assert forall i | 0 <= i < |parts| && LastAmong(parts, i, |parts|) :: LastAmong(ks, i, |ks|);
  }

  /** `open_keys()` */
  method OpenKeys(reader: C.CollectionManager) returns (ks: seq<Key>)
    ensures C.Elems(ks) == reader.handles.Keys
  {
    ks := [];
    var left := reader.handles.Keys;
    while left != {}
      invariant left <= reader.handles.Keys && C.Elems(ks) == reader.handles.Keys - left
      decreases left
    {
      var k :| k in left;
      assert C.Elems(ks + [k]) == C.Elems(ks) + {k};
      ks := ks + [k];
      left := left - {k};
    }
  }

  /** `/internal/reload`: nothing happens while the catalog cannot be read;
      otherwise every handle there was is replaced or gone. */
  method InternalReload(reader: C.CollectionManager, metaOk: bool, sealing: nat -> Reading, reopening: nat -> Reading) returns (ok: bool)
    requires reader.readOnly
    modifies reader`handles, reader.storage
    ensures ok == metaOk && reader.fenced == old(reader.fenced) && SameVersions(old(reader.storage.files), reader.storage.files)
    ensures !metaOk ==> reader.State() == old(reader.State()) && reader.storage.files == old(reader.storage.files)
    ensures metaOk ==> reader.handles.Keys <= old(reader.handles).Keys
    ensures metaOk ==> forall k <- reader.handles ::
              && ClosedOrCurrent(reader.State(), reader.storage.files, k, old(reader.storage.now))
              && !HasWal(reader.storage.files, k) && !IsFenced(reader.State(), k)
    // When all seals and all openings work, what was open and is not fenced is open again.
    ensures metaOk && (forall i: nat :: !sealing(i).seal && reopening(i).open.open(0).OpenOk?) ==>
              forall k <- old(reader.handles) :: k in reader.storage.files && !IsFenced(reader.State(), k) ==> k in reader.handles
    // A log file appears only where there was one before the seal.
    ensures forall k <- reader.storage.files :: HasWal(reader.storage.files, k) ==> HasWal(old(reader.storage.files), k)
  {
    if !metaOk {
      return false;
    }
    var keys := OpenKeys(reader);
    assert forall k :: k in keys <==> k in C.Elems(keys);
    CloseEach(reader, keys);
    assert reader.handles.Keys == {};
    SealDirty(reader, keys, sealing);
    ReopenEach(reader, keys, true, reopening);
    forall k | k in keys && !HasWal(reader.storage.files, k) && k in reader.storage.files && !IsFenced(reader.State(), k)
               && forall i: nat :: reopening(i).open.open(0).OpenOk?
      ensures k in reader.handles
    {
      var i := LastOccurrence(keys, k);
    }
    return true;
  }

  /** The partitions with a log file are sealed one by one. */
  method SealDirty(reader: C.CollectionManager, keys: seq<Key>, sealing: nat -> Reading)
    modifies reader.storage`files
    ensures SameVersions(old(reader.storage.files), reader.storage.files)
    ensures forall k <- reader.storage.files :: HasWal(reader.storage.files, k) ==> HasWal(old(reader.storage.files), k)
    ensures (forall i: nat :: !sealing(i).seal) ==> forall k <- keys :: !HasWal(reader.storage.files, k)
  {
    var dirty: seq<Key> := [];
    for i := 0 to |keys|
      invariant forall k :: k in dirty <==> k in keys[..i] && HasWal(reader.storage.files, k)
    {
      if HasWal(reader.storage.files, keys[i]) {
        dirty := dirty + [keys[i]];
      }
    }
    assert keys[..|keys|] == keys;
    SealAll(reader, dirty, sealing);
    forall k | k in dirty && forall i: nat :: !sealing(i).seal ensures !HasWal(reader.storage.files, k) {
      var i := LastOccurrence(dirty, k);
    }
  }

  // ---------- Writer ----------

  datatype WriteError = CannotOpen(error: OpenError) | BadEntity | EngineRefused

  /** One engine write: the log file and a new version. */
  method EngineWrite(storage: C.Storage, k: Key)
    modifies storage
    ensures storage.now == old(storage.now) + 1
    ensures storage.files == if k in old(storage.files)
                             then old(storage.files)[k := PartFile(old(storage.files)[k].born, old(storage.now), true)]
                             else old(storage.files)
  {
    if k in storage.files {
      storage.files := storage.files[k := Written(storage.files[k], storage.now)];
    }
    storage.now := storage.now + 1;
  }

  /** Only the partition `k` of the disk changed. */
  ghost predicate OnlyTouches(disk: Disk, disk': Disk, k: Key) {
    disk'.Keys == disk.Keys && forall l <- disk :: l != k ==> disk'[l] == disk[l]
  }

  /** The Writer's open goes through. */
  ghost predicate CanOpen(writer: Manager, disk: Disk, k: Key, env: C.OpenEnv) {
    k in disk && (k in writer.handles || C.GetsThrough(env.open, 0, 8))
  }

  /** How many events an open that goes through is. */
  function Opening(writer: Manager, k: Key): nat {
    if k in writer.handles then 0 else 1
  }

  /** The entity is converted and the engine takes it. */
  predicate Accepts(converts: seq<bool>, env: Writing, i: nat) {
    i < |converts| && converts[i] && env.write(i).ok
  }

  /** The entity has reached the disk. */
  predicate Reaches(converts: seq<bool>, env: Writing, i: nat) {
    i < |converts| && converts[i] && env.write(i).wrote
  }

  /** How many of the first n entities have reached the disk. */
  function Landed(converts: seq<bool>, env: Writing, n: nat): nat {
    if n == 0 then 0 else Landed(converts, env, n - 1) + if Reaches(converts, env, n - 1) then 1 else 0
  }

  lemma {:induction false} LandedIff(converts: seq<bool>, env: Writing, n: nat)
    ensures Landed(converts, env, n) > 0 <==> exists i: nat :: i < n && Reaches(converts, env, i)
  {
    if n > 0 {
      LandedIff(converts, env, n - 1);
    }
  }

  /** The disk after some writes to `k`, the last of which was the last event. */
  ghost predicate WroteLast(disk: Disk, disk': Disk, k: Key, wrote: bool, now': nat) {
    k in disk && OnlyTouches(disk, disk', k) && disk'[k].version == if wrote then now' - 1 else disk[k].version
  }

  /** `upsert` between fence and reopen.  Entities are written one by one up to
      the first that fails; the handle is closed again on every path; an open
      that fails changes nothing. */
  method UpsertBody(writer: C.CollectionManager, k: Key, converts: seq<bool>, env: Writing)
    returns (r: Result<nat, WriteError>, ghost stop: nat)
    requires !writer.readOnly
    modifies writer`handles, writer.storage
    ensures k in old(writer.storage.files) ==> writer.State() == Close(old(writer.State()), k)
    ensures k !in old(writer.storage.files) ==> writer.State() == old(writer.State())
    ensures OnlyTouches(old(writer.storage.files), writer.storage.files, k) && writer.storage.now >= old(writer.storage.now)
    ensures stop <= |converts| && forall i | 0 <= i < stop :: Accepts(converts, env, i)
    ensures var granted := CanOpen(old(writer.State()), old(writer.storage.files), k, env.open(0));
            if granted then
              var landed := Landed(converts, env, stop + 1);
              && !Accepts(converts, env, stop)
              && r == (if stop == |converts| then Success(stop) else if converts[stop] then Failure(EngineRefused) else Failure(BadEntity))
              && writer.storage.now == old(writer.storage.now) + Opening(old(writer.State()), k) + landed
              && WroteLast(old(writer.storage.files), writer.storage.files, k, landed > 0, writer.storage.now)
              && HasWal(writer.storage.files, k) == env.closing(0).wal
            else
              && r.Failure? && r.error.CannotOpen? && stop == 0
              && writer.storage.files == old(writer.storage.files) && writer.storage.now == old(writer.storage.now)
  {
    stop := 0;
    var handle := writer.OpenForWriting(k, 8, env.open(0));
    if handle.Failure? {
      assert k !in writer.handles ==> writer.State() == Close(writer.State(), k);
      return Failure(CannotOpen(handle.error)), 0;
    }
    var i, error := WriteEach(writer.storage, k, converts, env);
    stop := i;
    var _ := writer.ClosePartition(k, None, env.closing(0));
    if error.Some? {
      return Failure(error.value), stop;
    }
    return Success(|converts|), stop;
  }

  /** Convert and write one entity after the other, up to the first that fails. */
  method WriteEach(storage: C.Storage, k: Key, converts: seq<bool>, env: Writing) returns (i: nat, error: Option<WriteError>)
    requires k in storage.files
    modifies storage
    ensures k in storage.files && i <= |converts| && forall j | 0 <= j < i :: Accepts(converts, env, j)
    ensures error.None? <==> i == |converts|
    ensures error.Some? ==> !Accepts(converts, env, i) && error.value == if converts[i] then EngineRefused else BadEntity
    ensures var landed := Landed(converts, env, i + 1);
            && storage.now == old(storage.now) + landed
            && WroteLast(old(storage.files), storage.files, k, landed > 0, storage.now)
  {
    i := 0;
    error := None;
    NoWriteYet(storage.files, k, storage.now);
    hide WroteLast;
    while i < |converts|
      invariant 0 <= i <= |converts| && k in storage.files && forall j | 0 <= j < i :: Accepts(converts, env, j)
      invariant storage.now == old(storage.now) + Landed(converts, env, i)
      invariant WroteLast(old(storage.files), storage.files, k, Landed(converts, env, i) > 0, storage.now)
    {
      ghost var files := storage.files;
      if !converts[i] {
        return i, Some(BadEntity);
      }
      if env.write(i).wrote {
        EngineWrite(storage, k);
        OneWriteMore(old(storage.files), files, storage.files, k, Landed(converts, env, i) > 0, storage.now - 1);
      }
      if !env.write(i).ok {
        return i, Some(EngineRefused);
      }
      i := i + 1;
    }
  }

  lemma NoWriteYet(disk: Disk, k: Key, now: nat)
    requires k in disk
    ensures WroteLast(disk, disk, k, false, now)
  {
  }

  lemma OneWriteMore(disk: Disk, files: Disk, files': Disk, k: Key, wrote: bool, now: nat)
    requires WroteLast(disk, files, k, wrote, now) && files' == files[k := Written(files[k], now)]
    ensures WroteLast(disk, files', k, true, now + 1)
  {
  }

  /** The engine never grants the lock: a read-only handle is open elsewhere. */
  ghost predicate Refuses(env: C.OpenEnv) {
    forall attempt: nat :: env.open(attempt).LockConflict?
  }

  /** `try: handle.<write>(...) finally: close_partition` */
  method WriteAndClose(writer: C.CollectionManager, k: Key, wrote: bool, closing: FlushAnswer)
    requires !writer.readOnly && k in writer.storage.files
    modifies writer`handles, writer.storage
    ensures writer.State() == Close(old(writer.State()), k)
    ensures writer.storage.now == old(writer.storage.now) + if wrote then 1 else 0
    ensures WroteLast(old(writer.storage.files), writer.storage.files, k, wrote, writer.storage.now)
    ensures k in old(writer.handles) ==> HasWal(writer.storage.files, k) == closing.wal
  {
    if wrote {
      EngineWrite(writer.storage, k);
    }
    var _ := writer.ClosePartition(k, None, closing);
  }

  method ConvertAll(converts: seq<bool>) returns (ok: bool)
    ensures ok <==> forall c <- converts :: c
  {
    for i := 0 to |converts|
      invariant forall j | 0 <= j < i :: converts[j]
    {
      if !converts[i] {
        assert converts[i] in converts;
        return false;
      }
    }
    return true;
  }

  /** `insert` converts every entity before its `try`, so the handle stays
      cached exactly when the open went through and a conversion raised.  All
      entities are written in one call. */
  method InsertBody(writer: C.CollectionManager, k: Key, converts: seq<bool>, env: Writing) returns (r: Result<nat, WriteError>)
    requires !writer.readOnly
    modifies writer`handles, writer.storage
    ensures k !in old(writer.storage.files) ==> writer.State() == old(writer.State()) && r == Failure(CannotOpen(NotFound))
    ensures k in old(writer.storage.files) ==>
              (k in writer.handles <==>
                 (k in old(writer.handles) || C.GetsThrough(env.open(0).open, 0, 8)) && exists c <- converts :: !c)
              && (k in writer.handles ==> r == Failure(BadEntity))
    ensures Close(writer.State(), k) == Close(old(writer.State()), k)
    ensures OnlyTouches(old(writer.storage.files), writer.storage.files, k) && writer.storage.now >= old(writer.storage.now)
    ensures var granted := CanOpen(old(writer.State()), old(writer.storage.files), k, env.open(0));
            var all := forall c <- converts :: c;
            if granted then
              var wrote := all && |converts| > 0 && env.write(0).wrote;
              && r == (if !all then Failure(BadEntity) else if |converts| > 0 && env.write(0).ok then Success(|converts|)
                       else Failure(EngineRefused))
              && writer.storage.now == old(writer.storage.now) + Opening(old(writer.State()), k) + (if wrote then 1 else 0)
              && WroteLast(old(writer.storage.files), writer.storage.files, k, wrote, writer.storage.now)
              && (all ==> HasWal(writer.storage.files, k) == env.closing(0).wal)
            else
              && r.Failure? && r.error.CannotOpen?
              && writer.storage.files == old(writer.storage.files) && writer.storage.now == old(writer.storage.now)
  {
    var handle := writer.OpenForWriting(k, 8, env.open(0));
    if handle.Failure? {
      return Failure(CannotOpen(handle.error));
    }
    var allConvert := ConvertAll(converts);
    if !allConvert {
      return Failure(BadEntity);
    }
    WriteAndClose(writer, k, |converts| > 0 && env.write(0).wrote, env.closing(0));
    if |converts| == 0 || !env.write(0).ok {
      return Failure(EngineRefused);
    }
    return Success(|converts|);
  }

  /** One entity that cannot be converted is enough: the Writer's cache, empty
      before, holds a handle afterwards. */
  method InsertLeaks() returns (writer: C.CollectionManager, r: Result<nat, WriteError>)
    ensures fresh(writer) && r == Failure(BadEntity) && Key("default", "c1", "p1") in writer.handles
  {
    var k := Key("default", "c1", "p1");
    var storage := new C.Storage(map[k := PartFile(0, 0, false)]);
    writer := new C.CollectionManager(storage, false);
    var works := C.OpenEnv(_ => OpenOk(false), _ => NO_FLUSH);
    assert works.open(0).OpenOk?;
    assert C.GetsThrough(works.open, 0, 8);
    var converts := [false];
    assert converts[0] in converts;
    r := InsertBody(writer, k, converts, Writing(_ => works, _ => EngineAnswer(true, true), _ => NO_FLUSH));
  }

  /** The Writer's cache once the first n partitions are dealt with. */
  ghost function Without(m: Manager, db: string, coll: string, parts: seq<string>, n: nat): Manager
    requires n <= |parts|
  {
    m.(handles := m.handles - Keys(db, coll, parts[..n]))
  }

  /** The i-th partition can be opened when its turn comes. */
  ghost predicate OpensAt(m: Manager, disk: Disk, db: string, coll: string, parts: seq<string>, env: Writing, i: nat)
    requires i < |parts|
  {
    CanOpen(Without(m, db, coll, parts, i), disk, Key(db, coll, parts[i]), env.open(i))
  }

  /** The delete on the i-th partition works. */
  ghost predicate DeletesAt(m: Manager, disk: Disk, db: string, coll: string, parts: seq<string>, wellFormed: bool, env: Writing, i: nat)
    requires i < |parts|
  {
    OpensAt(m, disk, db, coll, parts, env, i) && wellFormed && env.write(i).ok
  }

  /** Up to partition number `stop`, a delete has reached the disk of `k`. */
  ghost predicate LandedIn(m: Manager, disk: Disk, db: string, coll: string, parts: seq<string>, wellFormed: bool, env: Writing,
                           stop: nat, k: Key)
  {
    exists i | 0 <= i < |parts| && i <= stop ::
      Key(db, coll, parts[i]) == k && OpensAt(m, disk, db, coll, parts, env, i) && wellFormed && env.write(i).wrote
  }

  /** What a delete has made of the versions on disk: new where it has landed, as
      they were everywhere else. */
  ghost predicate DeletedFrom(m: Manager, disk: Disk, disk': Disk, db: string, coll: string, parts: seq<string>, wellFormed: bool,
                              env: Writing, stop: nat, t0: nat)
  {
    disk'.Keys == disk.Keys && forall l <- disk ::
      if LandedIn(m, disk, db, coll, parts, wellFormed, env, stop, l) then disk'[l].version >= t0
      else disk'[l].version == disk[l].version
  }

  /** `delete` between fence and reopen, one partition after the other.  It stops
      at the first failure; what it has opened is closed again on every path. */
  method DeleteBody(writer: C.CollectionManager, db: string, coll: string, parts: seq<string>, wellFormed: bool, count: nat, env: Writing)
    returns (r: Result<nat, WriteError>, ghost done: nat, ghost stop: nat)
    requires !writer.readOnly
    modifies writer`handles, writer.storage
    ensures stop <= |parts| && stop <= done <= |parts| && done <= stop + 1
    ensures writer.State() == old(writer.State()).(handles := old(writer.handles) - Keys(db, coll, parts[..done]))
    ensures writer.storage.files.Keys == old(writer.storage.files).Keys && writer.storage.now >= old(writer.storage.now)
    ensures forall l <- writer.storage.files :: l !in Keys(db, coll, parts) ==> writer.storage.files[l] == old(writer.storage.files)[l]
    ensures forall l <- writer.storage.files :: RefusedIn(old(writer.State()), db, coll, parts, env, l) ==>
              writer.storage.files[l] == old(writer.storage.files)[l]
    ensures var m, disk := old(writer.State()), old(writer.storage.files);
            && (forall i | 0 <= i < stop :: DeletesAt(m, disk, db, coll, parts, wellFormed, env, i))
            && (if stop == |parts| then r == Success(count * |parts|)
                else !DeletesAt(m, disk, db, coll, parts, wellFormed, env, stop) && r.Failure?
                     && if !OpensAt(m, disk, db, coll, parts, env, stop) then r.error.CannotOpen?
                        else r.error == if wellFormed then EngineRefused else BadEntity)
            && DeletedFrom(m, disk, writer.storage.files, db, coll, parts, wellFormed, env, stop, old(writer.storage.now))
            && Closed(m, disk, writer.storage.files, db, coll, parts, env, if stop < |parts| then stop + 1 else stop)
  {
    hide CanOpen, OpensAt, LandedIn, DeletedFrom, RefusedIn, Closed;
    NothingClosed(writer.State(), writer.storage.files, db, coll, parts, env);
    done, stop := 0, 0;
    var i := 0;
    var deleted := 0;
    ghost var m, disk, t0 := writer.State(), writer.storage.files, writer.storage.now;
    assert old(writer.handles) - Keys(db, coll, parts[..0]) == old(writer.handles);
    while i < |parts|
      invariant 0 <= i <= |parts| && done == i && deleted == count * i
      invariant writer.State() == Without(m, db, coll, parts, i)
      invariant writer.storage.files.Keys == disk.Keys && writer.storage.now >= t0
      invariant forall l <- writer.storage.files :: l !in Keys(db, coll, parts) ==> writer.storage.files[l] == disk[l]
      invariant forall l <- writer.storage.files :: RefusedIn(m, db, coll, parts, env, l) ==> writer.storage.files[l] == disk[l]
      invariant forall j | 0 <= j < i :: DeletesAt(m, disk, db, coll, parts, wellFormed, env, j)
      invariant i > 0 ==> DeletedFrom(m, disk, writer.storage.files, db, coll, parts, wellFormed, env, i - 1, t0)
      invariant i == 0 ==> writer.storage.files == disk
      invariant Closed(m, disk, writer.storage.files, db, coll, parts, env, i)
    {
      var k := Key(db, coll, parts[i]);
      KeysOneMore(db, coll, parts, i);
      OpenIsOpensAt(m, disk, writer.storage.files, db, coll, parts, env, i);
      ghost var between, files := writer.State(), writer.storage.files;
      var error := DeleteFrom(writer, k, i, wellFormed, env);
      DeletedOneMore(m, disk, files, writer.storage.files, db, coll, parts, wellFormed, env, i, t0);
      ClosedOneMore(m, disk, files, writer.storage.files, db, coll, parts, env, i);
      if error.Some? {
        done := if writer.State() == between then i else i + 1;
        return Failure(error.value), done, i;
      }
      deleted := deleted + count;
      i := i + 1;
      done := i;
    }
    DeletedAll(m, disk, writer.storage.files, db, coll, parts, wellFormed, env, t0);
    return Success(deleted), done, |parts|;
  }

  /** Each of the first n partitions that could be opened has the log flag that its
      last close has left. */
  ghost predicate Closed(m: Manager, disk: Disk, files: Disk, db: string, coll: string, parts: seq<string>, env: Writing, n: nat) {
    n <= |parts| && forall i | 0 <= i < n && OpensAt(m, disk, db, coll, parts, env, i) && LastAmong(parts, i, n) ::
      HasWal(files, Key(db, coll, parts[i])) == env.closing(i).wal
  }

  lemma NothingClosed(m: Manager, disk: Disk, db: string, coll: string, parts: seq<string>, env: Writing)
    ensures Closed(m, disk, disk, db, coll, parts, env, 0)
  {
  }

  lemma ClosedOneMore(m: Manager, disk: Disk, files: Disk, files': Disk, db: string, coll: string, parts: seq<string>, env: Writing, n: nat)
    requires n < |parts| && Closed(m, disk, files, db, coll, parts, env, n) && files'.Keys == files.Keys
    requires forall l <- files :: l != Key(db, coll, parts[n]) ==> files'[l] == files[l]
    requires OpensAt(m, disk, db, coll, parts, env, n) ==> HasWal(files', Key(db, coll, parts[n])) == env.closing(n).wal
    ensures Closed(m, disk, files', db, coll, parts, env, n + 1)
  {
    hide OpensAt;
    forall i | 0 <= i < n && OpensAt(m, disk, db, coll, parts, env, i) && LastAmong(parts, i, n + 1)
      ensures HasWal(files', Key(db, coll, parts[i])) == env.closing(i).wal
    {
      assert parts[i] != parts[n] && LastAmong(parts, i, n);
    }
  }

  lemma OpenIsOpensAt(m: Manager, disk: Disk, files: Disk, db: string, coll: string, parts: seq<string>, env: Writing, i: nat)
    requires i < |parts| && files.Keys == disk.Keys
    ensures CanOpen(Without(m, db, coll, parts, i), files, Key(db, coll, parts[i]), env.open(i)) == OpensAt(m, disk, db, coll, parts, env, i)
    ensures RefusedIn(m, db, coll, parts, env, Key(db, coll, parts[i])) ==> !OpensAt(m, disk, db, coll, parts, env, i)
  {
    assert Refuses(env.open(i)) ==> !C.GetsThrough(env.open(i).open, 0, 8);
  }

  lemma DeletedAll(m: Manager, disk: Disk, files: Disk, db: string, coll: string, parts: seq<string>, wellFormed: bool, env: Writing,
                   t0: nat)
    requires if |parts| > 0 then DeletedFrom(m, disk, files, db, coll, parts, wellFormed, env, |parts| - 1, t0) else files == disk
    ensures DeletedFrom(m, disk, files, db, coll, parts, wellFormed, env, |parts|, t0)
  {
  }

  lemma DeletedOneMore(m: Manager, disk: Disk, files: Disk, files': Disk, db: string, coll: string, parts: seq<string>,
                       wellFormed: bool, env: Writing, i: nat, t0: nat)
    requires i < |parts| && files.Keys == disk.Keys && files'.Keys == files.Keys
    requires if i > 0 then DeletedFrom(m, disk, files, db, coll, parts, wellFormed, env, i - 1, t0) else files == disk
    requires var k := Key(db, coll, parts[i]);
             && (forall l <- files :: l != k ==> files'[l] == files[l])
             && (k in files ==> if OpensAt(m, disk, db, coll, parts, env, i) && wellFormed && env.write(i).wrote then files'[k].version >= t0
                                else files'[k].version == files[k].version)
    ensures DeletedFrom(m, disk, files', db, coll, parts, wellFormed, env, i, t0)
  {
    forall l | l in disk
      ensures if LandedIn(m, disk, db, coll, parts, wellFormed, env, i, l) then files'[l].version >= t0
              else files'[l].version == disk[l].version
    {
      assert LandedIn(m, disk, db, coll, parts, wellFormed, env, i, l) <==>
               (i > 0 && LandedIn(m, disk, db, coll, parts, wellFormed, env, i - 1, l))
               || (Key(db, coll, parts[i]) == l && OpensAt(m, disk, db, coll, parts, env, i) && wellFormed && env.write(i).wrote);
    }
  }

  /** Wherever `l` stands in the list, the Writer's open on it is refused. */
  ghost predicate RefusedIn(writer: Manager, db: string, coll: string, parts: seq<string>, env: Writing, l: Key) {
    l !in writer.handles && forall i | 0 <= i < |parts| :: Key(db, coll, parts[i]) == l ==> Refuses(env.open(i))
  }

  method DeleteFrom(writer: C.CollectionManager, k: Key, call: nat, wellFormed: bool, env: Writing) returns (error: Option<WriteError>)
    requires !writer.readOnly
    modifies writer`handles, writer.storage
    ensures writer.State() == Close(old(writer.State()), k)
            || (error.Some? && k !in old(writer.storage.files) && writer.State() == old(writer.State()))
    ensures OnlyTouches(old(writer.storage.files), writer.storage.files, k) && writer.storage.now >= old(writer.storage.now)
    ensures var granted := CanOpen(old(writer.State()), old(writer.storage.files), k, env.open(call));
            var wrote := granted && wellFormed && env.write(call).wrote;
            && (error.None? <==> granted && wellFormed && env.write(call).ok)
            && (error.Some? ==> if !granted then error.value.CannotOpen? else error.value == if wellFormed then EngineRefused else BadEntity)
            && (if granted then HasWal(writer.storage.files, k) == env.closing(call).wal
                else writer.storage.files == old(writer.storage.files))
            && (k in writer.storage.files ==> if wrote then writer.storage.files[k].version >= old(writer.storage.now)
                                              else writer.storage.files[k].version == old(writer.storage.files)[k].version)
  {
    var handle := writer.OpenForWriting(k, 8, env.open(call));
    if handle.Failure? {
      assert k !in writer.handles ==> writer.State() == Close(writer.State(), k);
      return Some(CannotOpen(handle.error));
    }
    WriteAndClose(writer, k, wellFormed && env.write(call).wrote, env.closing(call));
    error := if !wellFormed then Some(BadEntity) else if !env.write(call).ok then Some(EngineRefused) else None;
  }

  /** Entering with_reader_released: fence, if the notice is delivered. */
  method EnterReleased(reader: C.CollectionManager, db: string, coll: string, parts: seq<string>, delivered: bool)
    requires reader.readOnly
    modifies reader`handles, reader`fenced, reader.storage`files
    ensures reader.storage.files == old(reader.storage.files)
    ensures reader.State() == if delivered then Fence(old(reader.State()), db, coll, parts) else old(reader.State())
  {
    if delivered {
      InternalClose(reader, db, coll, parts, Some(true));
    }
  }

  /** Leaving it: seal what has a log file, then reopen or unfence.  The seal and
      the Reader's reopening meet answers of their own. */
  method LeaveReleased(writer: C.CollectionManager, reader: C.CollectionManager, db: string, coll: string, parts: seq<string>,
                       loaded: bool, delivered: bool, sealing: Sealing, reopening: nat -> C.OpenEnv)
    returns (ghost reopened: bool)
    requires !writer.readOnly && reader.readOnly && writer.storage == reader.storage && parts != []
    requires forall k <- Keys(db, coll, parts) :: Shows(reader.State(), reader.storage.files, k)
    modifies writer`handles, reader`handles, reader`fenced, reader.storage
    ensures forall k <- Keys(db, coll, parts) :: Shows(reader.State(), reader.storage.files, k)
    ensures forall k <- Keys(db, coll, parts) ::
              k !in old(reader.handles) ==> ClosedOrCurrent(reader.State(), reader.storage.files, k, old(reader.storage.now))
    ensures writer.State() == old(writer.State())
    ensures SameVersions(old(reader.storage.files), reader.storage.files)
    ensures reader.fenced == if delivered then Unfence(old(reader.State()), db, coll, parts).fenced else old(reader.fenced)
    ensures !(delivered && loaded) ==> reader.handles == old(reader.handles)
    // A seal that can work does: no log file is left.
    ensures forall i | 0 <= i < |parts| && (forall j | 0 <= j < |parts| && parts[j] == parts[i] ::
                         CanSeal(old(writer.State()), old(writer.storage.files), Key(db, coll, parts[j]), sealing, j)) ::
              !HasWal(reader.storage.files, Key(db, coll, parts[i]))
    // Once the Reader has answered that it reopened, a partition is open or has a log file left.
    ensures reopened ==> delivered && loaded && forall k <- Keys(db, coll, parts) ::
              HasWal(reader.storage.files, k) <==> k !in reader.handles
    ensures delivered && loaded && Reopens(reopening, old(reader.storage.files), db, coll, parts) ==> reopened
  {
    reopened := false;
    SealNamed(writer, reader, db, coll, parts, sealing);
    if delivered {
      if loaded {
        var ok := InternalOpen(reader, db, coll, parts, reopening);
        reopened := ok;
      } else {
        reader.UnfencePartitions(db, coll, parts);
      }
    }
  }

  /** Sealing the idle partition `k` as the n-th one works. */
  ghost predicate CanSeal(writer: Manager, disk: Disk, k: Key, env: Sealing, n: nat) {
    k !in writer.handles && k in disk && C.GetsThrough(env.open(n).open, 0, 8)
    && env.inPlace(n).ok && env.closing(n).ok && !env.closing(n).wal
  }

  method SealNamed(writer: C.CollectionManager, reader: C.CollectionManager, db: string, coll: string, parts: seq<string>,
                   env: Sealing)
    requires !writer.readOnly && reader.readOnly && writer.storage == reader.storage
    requires forall k <- Keys(db, coll, parts) :: Shows(reader.State(), reader.storage.files, k)
    modifies writer`handles, writer.storage
    ensures writer.State() == old(writer.State()) && reader.State() == old(reader.State())
    ensures writer.storage.now >= old(writer.storage.now) && SameVersions(old(writer.storage.files), writer.storage.files)
    ensures forall k <- Keys(db, coll, parts) :: Shows(reader.State(), reader.storage.files, k)
    ensures forall i | 0 <= i < |parts| && (forall j | 0 <= j < |parts| && parts[j] == parts[i] ::
                         CanSeal(old(writer.State()), old(writer.storage.files), Key(db, coll, parts[j]), env, j)) ::
              !HasWal(writer.storage.files, Key(db, coll, parts[i]))
  {
    for i := 0 to |parts|
      invariant writer.State() == old(writer.State()) && reader.State() == old(reader.State())
      invariant writer.storage.now >= old(writer.storage.now) && SameVersions(old(writer.storage.files), writer.storage.files)
      invariant forall k <- Keys(db, coll, parts) :: Shows(reader.State(), reader.storage.files, k)
      invariant forall h | 0 <= h < i && CanSeal(old(writer.State()), old(writer.storage.files), Key(db, coll, parts[h]), env, h)
                           && (forall j | 0 <= j < |parts| && parts[j] == parts[h] ::
                                 CanSeal(old(writer.State()), old(writer.storage.files), Key(db, coll, parts[j]), env, j)) ::
                  !HasWal(writer.storage.files, Key(db, coll, parts[h]))
    {
      var k := Key(db, coll, parts[i]);
      assert k in Keys(db, coll, parts);
      if HasWal(writer.storage.files, k) {
        SealQuietly(writer, k, env, i);
      }
    }
  }

  /** `try: flush_partition(...) except: log` */
  method SealQuietly(writer: C.CollectionManager, k: Key, env: Sealing, n: nat)
    requires !writer.readOnly && k in writer.storage.files
    modifies writer`handles, writer.storage
    ensures writer.State() == old(writer.State()) && writer.storage.now >= old(writer.storage.now)
    ensures C.OnlyWal(old(writer.storage.files), writer.storage.files, k)
    ensures CanSeal(old(writer.State()), old(writer.storage.files), k, env, n) ==> !HasWal(writer.storage.files, k)
    // What it leaves: the flag of the flush in place, or of the close, or nothing changes.
    ensures writer.storage.files == if k in old(writer.handles) then SetWal(old(writer.storage.files), k, env.inPlace(n).wal)
                                    else if C.GetsThrough(env.open(n).open, 0, 8) then SetWal(old(writer.storage.files), k, env.closing(n).wal)
                                    else old(writer.storage.files)
  {
    var _ := writer.FlushPartition(k, 8, env.open(n), env.inPlace(n), env.closing(n));
  }

  /** The engine's lock: where the close notice was lost and the Reader still has
      a handle, that handle shows the disk, and the Writer is refused. */
  ghost predicate LockHolds(reader: Manager, writer: Manager, disk: Disk, db: string, coll: string, parts: seq<string>,
                            delivered: bool, env: Writing) {
    !delivered ==> forall k <- Keys(db, coll, parts) :: k in reader.handles ==>
      Shows(reader, disk, k) && RefusedIn(writer, db, coll, parts, env, k)
  }

  /** What with_reader_released promises of the Reader around the body of an
      operation.  Whatever fails (the close notice, the body, the seal, the reopen
      notice, the reopening), its handles on the named partitions are closed or
      show exactly what is on disk with no log file beside them; and when the
      reopening works, a partition is open exactly when no log file is left. */
  ghost predicate Released(m: Manager, m': Manager, disk: Disk, disk': Disk, db: string, coll: string, parts: seq<string>,
                           closeDelivered: bool, reopenDelivered: bool, reopened: bool, t0: nat)
  {
    && (forall k <- Keys(db, coll, parts) :: Shows(m', disk', k))
    && (closeDelivered ==> forall k <- Keys(db, coll, parts) :: ClosedOrCurrent(m', disk', k, t0))
    && (reopened ==> forall k <- Keys(db, coll, parts) :: HasWal(disk', k) <==> k !in m'.handles)
    && m'.fenced == FencesAfter(m, db, coll, parts, closeDelivered, reopenDelivered)
    && disk'.Keys == disk.Keys
  }

  ghost function FencesAfter(m: Manager, db: string, coll: string, parts: seq<string>, closeDelivered: bool, reopenDelivered: bool): set<Key> {
    var m1 := if closeDelivered then Fence(m, db, coll, parts) else m;
    if reopenDelivered then Unfence(m1, db, coll, parts).fenced else m1.fenced
  }

  /** A whole upsert: the promise about the Reader, the Writer keeps no handle it
      opened, what succeeded has been written, and the Reader shows it. */
  method Upsert(writer: C.CollectionManager, reader: C.CollectionManager, db: string, coll: string, parts: seq<string>,
                converts: seq<bool>, loaded: bool, closeDelivered: bool, reopenDelivered: bool,
                writing: Writing, sealing: Sealing, reopening: nat -> C.OpenEnv)
    returns (r: Result<nat, WriteError>, ghost stop: nat, ghost reopened: bool)
    requires !writer.readOnly && reader.readOnly && writer.storage == reader.storage && parts != []
    requires LockHolds(reader.State(), writer.State(), writer.storage.files, db, coll, parts[..1], closeDelivered, writing)
    requires !closeDelivered ==> forall k <- Keys(db, coll, parts) :: Shows(reader.State(), reader.storage.files, k)
    modifies writer`handles, reader`handles, reader`fenced, reader.storage
    ensures Released(old(reader.State()), reader.State(), old(reader.storage.files), reader.storage.files, db, coll, parts,
                     closeDelivered, reopenDelivered, reopened, old(reader.storage.now))
    ensures reopenDelivered && loaded && Reopens(reopening, old(reader.storage.files), db, coll, parts) ==> reopened
    ensures writer.State() == if Key(db, coll, parts[0]) in old(reader.storage.files)
                              then Close(old(writer.State()), Key(db, coll, parts[0])) else old(writer.State())
    ensures forall l <- reader.storage.files :: l != Key(db, coll, parts[0]) ==>
              reader.storage.files[l].version == old(reader.storage.files)[l].version
    ensures stop <= |converts| && forall i | 0 <= i < stop :: Accepts(converts, writing, i)
    ensures var k := Key(db, coll, parts[0]);
            var granted := CanOpen(old(writer.State()), old(writer.storage.files), k, writing.open(0));
            && (r.Success? <==> granted && stop == |converts|) && (r.Success? ==> r.value == |converts|)
            && (granted ==> !Accepts(converts, writing, stop))
            && (k in reader.storage.files ==>
                  if granted && Landed(converts, writing, stop + 1) > 0 then
                    && reader.storage.files[k].version >= old(reader.storage.now)
                    && (reopened && !HasWal(reader.storage.files, k) ==>
                          k in reader.handles && reader.handles[k].version >= old(reader.storage.now))
                  else reader.storage.files[k].version == old(reader.storage.files)[k].version)
  {
    var k := Key(db, coll, parts[0]);
    assert Key(db, coll, parts[..1][0]) == k && k in Keys(db, coll, parts[..1]) && k in Keys(db, coll, parts);
    EnterReleased(reader, db, coll, parts, closeDelivered);
    r, stop := UpsertBody(writer, k, converts, writing);
    reopened := LeaveReleased(writer, reader, db, coll, parts, loaded, reopenDelivered, sealing, reopening);
  }

  /** A whole insert: the same, but for the Writer handle that a bad entity leaves. */
  method Insert(writer: C.CollectionManager, reader: C.CollectionManager, db: string, coll: string, parts: seq<string>,
                converts: seq<bool>, loaded: bool, closeDelivered: bool, reopenDelivered: bool,
                writing: Writing, sealing: Sealing, reopening: nat -> C.OpenEnv)
    returns (r: Result<nat, WriteError>, ghost reopened: bool)
    requires !writer.readOnly && reader.readOnly && writer.storage == reader.storage && parts != []
    requires LockHolds(reader.State(), writer.State(), writer.storage.files, db, coll, parts[..1], closeDelivered, writing)
    requires !closeDelivered ==> forall k <- Keys(db, coll, parts) :: Shows(reader.State(), reader.storage.files, k)
    modifies writer`handles, reader`handles, reader`fenced, reader.storage
    ensures Released(old(reader.State()), reader.State(), old(reader.storage.files), reader.storage.files, db, coll, parts,
                     closeDelivered, reopenDelivered, reopened, old(reader.storage.now))
    ensures reopenDelivered && loaded && Reopens(reopening, old(reader.storage.files), db, coll, parts) ==> reopened
    ensures Close(writer.State(), Key(db, coll, parts[0])) == Close(old(writer.State()), Key(db, coll, parts[0]))
    ensures Key(db, coll, parts[0]) in reader.storage.files && Key(db, coll, parts[0]) in writer.handles ==> r == Failure(BadEntity)
    ensures forall l <- reader.storage.files :: l != Key(db, coll, parts[0]) ==>
              reader.storage.files[l].version == old(reader.storage.files)[l].version
    ensures var k := Key(db, coll, parts[0]);
            var granted := CanOpen(old(writer.State()), old(writer.storage.files), k, writing.open(0));
            var tried := granted && |converts| > 0 && forall c <- converts :: c;
            && (r.Success? <==> tried && writing.write(0).ok) && (r.Success? ==> r.value == |converts|)
            && (k in reader.storage.files ==>
                  if tried && writing.write(0).wrote then
                    && reader.storage.files[k].version >= old(reader.storage.now)
                    && (reopened && !HasWal(reader.storage.files, k) ==>
                          k in reader.handles && reader.handles[k].version >= old(reader.storage.now))
                  else reader.storage.files[k].version == old(reader.storage.files)[k].version)
  {
    var k := Key(db, coll, parts[0]);
    assert Key(db, coll, parts[..1][0]) == k && k in Keys(db, coll, parts[..1]) && k in Keys(db, coll, parts);
    EnterReleased(reader, db, coll, parts, closeDelivered);
    r := InsertBody(writer, k, converts, writing);
    reopened := LeaveReleased(writer, reader, db, coll, parts, loaded, reopenDelivered, sealing, reopening);
  }

  /** A whole delete over several partitions, with the same promises for each. */
  method Delete(writer: C.CollectionManager, reader: C.CollectionManager, db: string, coll: string, parts: seq<string>,
                wellFormed: bool, count: nat, loaded: bool, closeDelivered: bool, reopenDelivered: bool,
                writing: Writing, sealing: Sealing, reopening: nat -> C.OpenEnv)
    returns (r: Result<nat, WriteError>, ghost done: nat, ghost stop: nat, ghost reopened: bool)
    requires !writer.readOnly && reader.readOnly && writer.storage == reader.storage && parts != []
    requires LockHolds(reader.State(), writer.State(), writer.storage.files, db, coll, parts, closeDelivered, writing)
    modifies writer`handles, reader`handles, reader`fenced, reader.storage
    ensures Released(old(reader.State()), reader.State(), old(reader.storage.files), reader.storage.files, db, coll, parts,
                     closeDelivered, reopenDelivered, reopened, old(reader.storage.now))
    ensures reopenDelivered && loaded && Reopens(reopening, old(reader.storage.files), db, coll, parts) ==> reopened
    ensures stop <= |parts| && stop <= done <= |parts| && done <= stop + 1
    ensures writer.State() == old(writer.State()).(handles := old(writer.handles) - Keys(db, coll, parts[..done]))
    ensures var m, disk := old(writer.State()), old(writer.storage.files);
            && (forall i | 0 <= i < stop :: DeletesAt(m, disk, db, coll, parts, wellFormed, writing, i))
            && (if stop == |parts| then r == Success(count * |parts|)
                else r.Failure? && !DeletesAt(m, disk, db, coll, parts, wellFormed, writing, stop))
            && DeletedFrom(m, disk, writer.storage.files, db, coll, parts, wellFormed, writing, stop, old(writer.storage.now))
            && forall k <- Keys(db, coll, parts) ::
                 (k in reader.storage.files && reopened && !HasWal(reader.storage.files, k)
                  && LandedIn(m, disk, db, coll, parts, wellFormed, writing, stop, k)) ==>
                   k in reader.handles && reader.handles[k].version >= old(reader.storage.now)
  {
    EnterReleased(reader, db, coll, parts, closeDelivered);
    r, done, stop := DeleteBody(writer, db, coll, parts, wellFormed, count, writing);
    reopened := LeaveReleased(writer, reader, db, coll, parts, loaded, reopenDelivered, sealing, reopening);
  }
}
