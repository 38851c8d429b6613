/** The process-local handle cache, as a class over its fields. */
module CollectionManager {
  import opened Wrappers
  import opened Partitions
  import opened LockText

  /** The data directory shared by both processes, with an event counter that
      numbers opens and writes. */
  class Storage {
    var files: Disk
    var now: nat

    constructor (files: Disk)
      ensures this.files == files && this.now == 0
    {
      this.files := files;
      this.now := 0;
    }
  }

  /** The engine's answers during one open_partition call, by attempt. */
  datatype OpenEnv = OpenEnv(open: nat -> OpenAnswer, flush: nat -> FlushAnswer)

  datatype OpenDone = OpenDone(m: Manager, disk: Disk, now: nat, result: Result<Handle, OpenError>)

  predicate IsLockError(e: OpenError, k: Key) {
    e == Locked || (e == PendingWal && WalErrorPassesForLock(k))
  }

  /** The retry loop of open_partition, from attempt number `attempt` on. */
  ghost function OpenRun(m: Manager, disk: Disk, now: nat, k: Key, force: bool, allowFenced: bool,
                   retries: nat, attempt: nat, env: OpenEnv): OpenDone
    requires attempt <= retries
    decreases retries - attempt
  {
    match FirstBlock(m, k, force, allowFenced)
    case FencedOut => OpenDone(m, disk, now, Failure(Fenced))
    case Cached(h) => OpenDone(m, disk, now, Success(h))
    case Miss(m1, popped) =>
      var d1 := if popped.Some? && !m.readOnly then SetWal(disk, k, env.flush(attempt).wal) else disk;
      match SecondBlock(m1, d1, now, k, allowFenced, env.open(attempt))
      case Hit(h) => OpenDone(m1, d1, now, Success(h))
      case Opened(m2, d2, h) => OpenDone(m2, d2, now + 1, Success(h))
      case Fail(e) =>
        if e == Fenced || attempt >= retries || !IsLockError(e, k) then OpenDone(m1, d1, now, Failure(e))
        else OpenRun(m1, d1, now, k, force, allowFenced, retries, attempt + 1, env)
  }

  /** Some attempt up to the last one finds the lock free after only lock conflicts. */
  ghost predicate GetsThrough(open: nat -> OpenAnswer, attempt: nat, retries: nat) {
    exists i: nat | attempt <= i <= retries ::
      open(i).OpenOk? && forall j | attempt <= j < i :: open(j).LockConflict?
  }

  /** Every attempt finds the lock taken. */
  ghost predicate AllLocked(open: nat -> OpenAnswer, attempt: nat, retries: nat) {
    forall i: nat | attempt <= i <= retries :: open(i).LockConflict?
  }

  /** Attempts after the partition is known to be absent from the cache. */
  lemma {:induction false} OpenRunAbsent(m: Manager, disk: Disk, now: nat, k: Key, force: bool, allowFenced: bool,
                                         retries: nat, attempt: nat, env: OpenEnv)
    requires attempt <= retries && k in disk && k !in m.handles
    requires m.readOnly && !allowFenced ==> !IsFenced(m, k)
    ensures var d := OpenRun(m, disk, now, k, force, allowFenced, retries, attempt, env);
            && (d.result.Success? <==> !(m.readOnly && HasWal(disk, k)) && GetsThrough(env.open, attempt, retries))
            && (d.result.Success? ==>
                  d.result.value == Handle(now, disk[k].version)
                  && d.m == m.(handles := m.handles[k := d.result.value]) && d.now == now + 1
                  && (m.readOnly ==> d.disk == disk))
            && (d.result.Failure? ==> d.m == m && d.disk == disk && d.now == now)
            && (m.readOnly && HasWal(disk, k) ==> d.result == Failure(PendingWal))
            && (d.result.Failure? && !(m.readOnly && HasWal(disk, k)) ==>
                  d.result.error == if AllLocked(env.open, attempt, retries) then Locked else Broken)
            && d.disk.Keys == disk.Keys
    decreases retries - attempt
  {
    hide WalErrorPassesForLock;
    var open := env.open;
    var r := SecondBlock(m, disk, now, k, allowFenced, open(attempt));
    if r.Fail? && attempt < retries && IsLockError(r.error, k) {
      OpenRunAbsent(m, disk, now, k, force, allowFenced, retries, attempt + 1, env);
      if r.error == Locked {
        ShiftGetsThrough(open, attempt, retries);
      }
    } else if open(attempt).OpenOk? {
      assert GetsThrough(open, attempt, retries);
    }
  }

  lemma ShiftGetsThrough(open: nat -> OpenAnswer, attempt: nat, retries: nat)
    requires attempt < retries && open(attempt).LockConflict?
    ensures GetsThrough(open, attempt, retries) <==> GetsThrough(open, attempt + 1, retries)
  {
  }

  /** When open_partition succeeds, and with what: it hands out the cached
      handle, or it opens a new one showing the version on disk; the Reader does
      neither under a fence and never opens over a log file; the retry loop gets
      past any number of lock conflicts up to `retries`, and past nothing else. */
  lemma OpenPartitionMeaning(m: Manager, disk: Disk, now: nat, k: Key, force: bool, allowFenced: bool,
                             retries: nat, env: OpenEnv)
    requires k in disk
    ensures var d := OpenRun(m, disk, now, k, force, allowFenced, retries, 0, env);
            d.result.Failure? && k !in m.handles ==> d.disk == disk
    ensures var d := OpenRun(m, disk, now, k, force, allowFenced, retries, 0, env);
            var barred := m.readOnly && !allowFenced && IsFenced(m, k);
            var cached := k in m.handles && !force;
            && (d.result.Success? <==>
                  !barred && (cached || (!(m.readOnly && HasWal(disk, k)) && GetsThrough(env.open, 0, retries))))
            && (d.result.Success? && cached ==> d == OpenDone(m, disk, now, Success(m.handles[k])))
            && (d.result.Success? && !cached ==>
                  d.result.value == Handle(now, disk[k].version)
                  && d.m == m.(handles := m.handles[k := d.result.value]))
            && d.now == (if d.result.Success? && !cached then now + 1 else now)
            && (d.result.Failure? ==> d.m == if barred then m else Close(m, k))
            && (barred ==> d.result == Failure(Fenced))
            && (!barred && !cached && m.readOnly && HasWal(disk, k) ==> d.result == Failure(PendingWal))
            && (d.result.Failure? && !barred && !(m.readOnly && HasWal(disk, k)) ==>
                  d.result.error == if AllLocked(env.open, 0, retries) then Locked else Broken)
            && (m.readOnly ==> d.disk == disk) && d.disk.Keys == disk.Keys
  {
    hide IsLockError;
    if !(m.readOnly && !allowFenced && IsFenced(m, k)) && !(k in m.handles && !force) {
      if k in m.handles {
        var m1 := Close(m, k);
        var d1 := if m.readOnly then disk else SetWal(disk, k, env.flush(0).wal);
        OpenRunAbsent(m1, d1, now, k, force, allowFenced, retries, 0, env);
        assert OpenRun(m, disk, now, k, force, allowFenced, retries, 0, env)
            == OpenRun(m1, d1, now, k, force, allowFenced, retries, 0, env);
        assert m.(handles := m.handles[k := Handle(now, disk[k].version)])
            == m1.(handles := m1.handles[k := Handle(now, disk[k].version)]);
      } else {
        OpenRunAbsent(m, disk, now, k, force, allowFenced, retries, 0, env);
        assert Close(m, k) == m;
      }
    }
  }

  /** Only log flags changed, and only that of `k`. */
  ghost predicate OnlyWal(disk: Disk, disk': Disk, k: Key) {
    && disk'.Keys == disk.Keys
    && forall l <- disk :: disk'[l] == if l == k then disk[l].(wal := disk'[l].wal) else disk[l]
  }

  /** Without force_reopen, nothing but this partition's log flag can change on disk. */
  lemma {:induction false} OpenRunTouches(m: Manager, disk: Disk, now: nat, k: Key, allowFenced: bool,
                                          retries: nat, attempt: nat, env: OpenEnv)
    requires attempt <= retries
    ensures var d := OpenRun(m, disk, now, k, false, allowFenced, retries, attempt, env);
            OnlyWal(disk, d.disk, k) && d.now >= now && d.m.fenced == m.fenced
    decreases retries - attempt
  {
    if attempt < retries {
      OpenRunTouches(m, disk, now, k, allowFenced, retries, attempt + 1, env);
    }
  }

  /** The log flags after flushing the handles of `ks`. */
  function FlushedAll(disk: Disk, ks: set<Key>, flush: Key -> FlushAnswer): Disk {
    map k | k in disk :: if k in ks then disk[k].(wal := flush(k).wal) else disk[k]
  }

  /** Each handle flushed leaves its own answer; nothing else changes. */
  lemma FlushedAllIs(disk: Disk, ks: set<Key>, flush: Key -> FlushAnswer, l: Key)
    ensures var disk' := FlushedAll(disk, ks, flush);
            && (l in disk' <==> l in disk)
            && (l in disk && l in ks ==> disk'[l] == disk[l].(wal := flush(l).wal))
            && (l in disk && l !in ks ==> disk'[l] == disk[l])
  {
  }

  function Elems(ks: seq<Key>): set<Key> {
    set k | k in ks
  }

  datatype FlushError = ReadOnlyManager | OpenFailed(error: OpenError) | EngineFlushFailed | CloseFlushFailed | WalRemains

  class CollectionManager {
    const readOnly: bool
    const storage: Storage
    var handles: map<Key, Handle>
    var fenced: set<Key>

    constructor (storage: Storage, readOnly: bool)
      ensures this.storage == storage && State() == Manager(readOnly, map[], {})
    {
      this.readOnly := readOnly;
      this.storage := storage;
      this.handles := map[];
      this.fenced := {};
    }

    function State(): Manager
      reads this
    {
      Manager(readOnly, handles, fenced)
    }

    /** Drop a handle, flushing it first if asked to. */
    method ReleaseHandle(k: Key, flush: bool, answer: FlushAnswer) returns (ok: bool)
      modifies storage`files
      ensures storage.files == if flush then SetWal(old(storage.files), k, answer.wal) else old(storage.files)
      ensures ok == (flush ==> answer.ok)
    {
      ok := true;
      if flush {
        storage.files := SetWal(storage.files, k, answer.wal);
        ok := answer.ok;
      }
    }

    method ReleaseAll(released: seq<Key>, answers: Key -> FlushAnswer)
      modifies storage`files
      ensures storage.files == if readOnly then old(storage.files)
                               else FlushedAll(old(storage.files), Elems(released), answers)
    {
      for i := 0 to |released|
        invariant storage.files == if readOnly then old(storage.files)
                                   else FlushedAll(old(storage.files), Elems(released[..i]), answers)
      {
        var _ := ReleaseHandle(released[i], !readOnly, answers(released[i]));
        assert released[..i + 1] == released[..i] + [released[i]];
      }
      assert released[..|released|] == released;
    }

    method FencePartitions(db: string, coll: string, parts: seq<string>, answers: Key -> FlushAnswer)
      modifies this`handles, this`fenced, storage`files
      ensures State() == Fence(old(State()), db, coll, parts)
      ensures storage.files == if readOnly then old(storage.files)
                               else FlushedAll(old(storage.files), old(handles).Keys - handles.Keys, answers)
    {
      var released: seq<Key> := [];
      if parts != [] {
        for i := 0 to |parts|
          invariant storage.files == old(storage.files)
          invariant fenced == old(fenced) + Keys(db, coll, parts[..i])
          invariant handles == old(handles) - Keys(db, coll, parts[..i])
          invariant Elems(released) == old(handles).Keys * Keys(db, coll, parts[..i])
        {
          var k := Key(db, coll, parts[i]);
          assert Keys(db, coll, parts[..i + 1]) == Keys(db, coll, parts[..i]) + {k} by {
            assert parts[..i + 1] == parts[..i] + [parts[i]];
          }
          fenced := fenced + {k};
          if k in handles {
            assert Elems(released + [k]) == Elems(released) + {k};
            released := released + [k];
            handles := handles - {k};
          }
        }
        assert parts[..|parts|] == parts;
      } else {
        fenced := fenced + {Key(db, coll, ANY_PART)};
        released := PopCollection(db, coll);
      }
      assert Elems(released) == old(handles).Keys - handles.Keys;
      ReleaseAll(released, answers);
    }

    /** `for k in list(self._handles): if k.startswith(prefix): pop` */
    method PopCollection(db: string, coll: string) returns (released: seq<Key>)
      modifies this`handles
      ensures handles == CloseCollection(old(State()), db, coll).handles
      ensures Elems(released) == old(handles).Keys - handles.Keys
    {
      released := [];
      var left := handles.Keys;
      while left != {}
        invariant left <= old(handles).Keys
        invariant handles == map k | k in old(handles) && (k in left || !InCollection(k, db, coll)) :: old(handles)[k]
        invariant Elems(released) == old(handles).Keys - handles.Keys
        decreases left
      {
        var k :| k in left;
        if InCollection(k, db, coll) {
          assert Elems(released + [k]) == Elems(released) + {k};
          released := released + [k];
          handles := handles - {k};
        }
        left := left - {k};
      }
    }

    method UnfencePartitions(db: string, coll: string, parts: seq<string>)
      modifies this`fenced
      ensures State() == Unfence(old(State()), db, coll, parts)
    {
      fenced := fenced - {Key(db, coll, ANY_PART)};
      if parts != [] {
        for i := 0 to |parts|
          invariant fenced == old(fenced) - {Key(db, coll, ANY_PART)} - Keys(db, coll, parts[..i])
        {
          assert Keys(db, coll, parts[..i + 1]) == Keys(db, coll, parts[..i]) + {Key(db, coll, parts[i])} by {
            assert parts[..i + 1] == parts[..i] + [parts[i]];
          }
          fenced := fenced - {Key(db, coll, parts[i])};
        }
        assert parts[..|parts|] == parts;
      } else {
        var left := fenced;
        while left != {}
          invariant left <= old(fenced)
          invariant fenced == set k | k in old(fenced) && k != Key(db, coll, ANY_PART) && (k in left || !InCollection(k, db, coll))
          decreases left
        {
          var k :| k in left;
          if InCollection(k, db, coll) {
            fenced := fenced - {k};
          }
          left := left - {k};
        }
        assert InCollection(Key(db, coll, ANY_PART), db, coll);
      }
    }

    method ClosePartition(k: Key, flush: Option<bool>, answer: FlushAnswer) returns (ok: bool)
      modifies this`handles, storage`files
      ensures State() == Close(old(State()), k)
      ensures var doFlush := k in old(handles) && (if flush.Some? then flush.value else !readOnly);
              storage.files == (if doFlush then SetWal(old(storage.files), k, answer.wal) else old(storage.files))
              && ok == (doFlush ==> answer.ok)
    {
      var doFlush := k in handles && (if flush.Some? then flush.value else !readOnly);
      handles := handles - {k};
      ok := ReleaseHandle(k, doFlush, answer);
    }

    method CloseAllPartitions(db: string, coll: string, answers: Key -> FlushAnswer)
      modifies this`handles, storage`files
      ensures State() == CloseCollection(old(State()), db, coll)
      ensures storage.files == if readOnly then old(storage.files)
                               else FlushedAll(old(storage.files), old(handles).Keys - handles.Keys, answers)
    {
      var released := PopCollection(db, coll);
      ReleaseAll(released, answers);
    }

    /** The first locked block: look the partition up, taking a handle out if it is to be reopened. */
    method LockedLookup(k: Key, force: bool, allowFenced: bool) returns (r: First)
      modifies this`handles
      ensures r == FirstBlock(old(State()), k, force, allowFenced)
      ensures State() == if r.Miss? then r.m else old(State())
    {
      if readOnly && !allowFenced && IsFenced(State(), k) {
        return FencedOut;
      }
      var popped := None;
      if force && k in handles {
        popped := Some(handles[k]);
        handles := handles - {k};
      }
      if k in handles {
        return Cached(handles[k]);
      }
      return Miss(State(), popped);
    }

    /** The second locked block: check again, then open. */
    method LockedOpen(k: Key, allowFenced: bool, answer: OpenAnswer) returns (r: Second)
      modifies this`handles, storage
      ensures r == SecondBlock(old(State()), old(storage.files), old(storage.now), k, allowFenced, answer)
      ensures r.Opened? ==> State() == r.m && storage.files == r.disk && storage.now == old(storage.now) + 1
      ensures !r.Opened? ==>
                State() == old(State()) && storage.files == old(storage.files) && storage.now == old(storage.now)
    {
      if readOnly && !allowFenced && IsFenced(State(), k) {
        return Fail(Fenced);
      }
      if k in handles {
        return Hit(handles[k]);
      }
      if readOnly && HasWal(storage.files, k) {
        return Fail(PendingWal);
      }
      match answer
      case LockConflict => return Fail(Locked);
      case OpenBroken => return Fail(Broken);
      case OpenOk(wal) =>
        if k !in storage.files {
          return Fail(Broken);
        }
        var h := Handle(storage.now, storage.files[k].version);
        if !readOnly {
          storage.files := SetWal(storage.files, k, wal);
        }
        handles := handles[k := h];
        storage.now := storage.now + 1;
        return Opened(State(), storage.files, h);
    }

    /** The retry loop, against OpenRun. */
    method OpenPartition(k: Key, force: bool, allowFenced: bool, retries: nat, env: OpenEnv)
      returns (r: Result<Handle, OpenError>)
      modifies this`handles, storage
      ensures k !in old(storage.files) ==>
                r == Failure(NotFound) && State() == old(State())
                && storage.files == old(storage.files) && storage.now == old(storage.now)
      ensures k in old(storage.files) ==>
                OpenDone(State(), storage.files, storage.now, r)
                == OpenRun(old(State()), old(storage.files), old(storage.now), k, force, allowFenced, retries, 0, env)
    {
      if k !in storage.files {
        return Failure(NotFound);
      }
      ghost var goal := OpenRun(State(), storage.files, storage.now, k, force, allowFenced, retries, 0, env);
      var attempt := 0;
      while true
        invariant attempt <= retries
        invariant OpenRun(State(), storage.files, storage.now, k, force, allowFenced, retries, attempt, env) == goal
        decreases retries - attempt
      {
        var found := LockedLookup(k, force, allowFenced);
        match found
        case FencedOut => return Failure(Fenced);
        case Cached(h) => return Success(h);
        case Miss(_, popped) =>
          if popped.Some? {
            var _ := ReleaseHandle(k, !readOnly, env.flush(attempt));
          }
          var second := LockedOpen(k, allowFenced, env.open(attempt));
          match second
          case Hit(h) => return Success(h);
          case Opened(_, _, h) => return Success(h);
          case Fail(e) =>
            if e == Fenced || attempt >= retries || !IsLockError(e, k) {
              return Failure(e);
            }
            attempt := attempt + 1;
      }
    }

    /** open_partition as the Writer calls it: no fence, no WAL guard, the cached handle if there is one. */
    method OpenForWriting(k: Key, retries: nat, env: OpenEnv) returns (r: Result<Handle, OpenError>)
      requires !readOnly
      modifies this`handles, storage
      ensures r.Success? <==> k in old(storage.files) && (k in old(handles) || GetsThrough(env.open, 0, retries))
      ensures r.Success? ==> k in storage.files && State() == old(State()).(handles := old(handles)[k := r.value])
      ensures r.Success? && k in old(handles) ==> r.value == old(handles)[k]
      ensures r.Failure? ==> State() == old(State()) && (k in old(storage.files) ==> k !in handles)
      ensures r.Failure? ==> storage.files == old(storage.files)
      ensures k !in old(storage.files) ==> r == Failure(NotFound)
      ensures OnlyWal(old(storage.files), storage.files, k)
      ensures storage.now == old(storage.now) + if r.Success? && k !in old(handles) then 1 else 0
    {
      if k in storage.files {
        OpenPartitionMeaning(State(), storage.files, storage.now, k, false, false, retries, env);
        OpenRunTouches(State(), storage.files, storage.now, k, false, retries, 0, env);
      }
      assert k in handles ==> handles[k := handles[k]] == handles;
      assert k !in handles ==> Close(State(), k) == State();
      r := OpenPartition(k, false, false, retries, env);
    }

    /** Open, flush and close an idle partition. */
    method FlushIdle(k: Key, retries: nat, env: OpenEnv, inPlace: FlushAnswer, closing: FlushAnswer)
      returns (r: Result<(), FlushError>)
      requires !readOnly && k !in handles
      modifies this`handles, storage
      ensures State() == old(State())
      ensures r.Success? <==> k in old(storage.files) && GetsThrough(env.open, 0, retries)
                              && inPlace.ok && closing.ok && !closing.wal
      ensures r.Success? ==> !HasWal(storage.files, k)
      ensures OnlyWal(old(storage.files), storage.files, k) && storage.now >= old(storage.now)
      ensures var opens := k in old(storage.files) && GetsThrough(env.open, 0, retries);
              && (!opens <==> r.Failure? && r.error.OpenFailed?)
              && (opens && !closing.ok ==> r == Failure(CloseFlushFailed))
              && (opens && closing.ok && closing.wal ==> r == Failure(WalRemains))
              && (opens && closing.ok && !closing.wal && !inPlace.ok ==> r == Failure(EngineFlushFailed))
              && storage.files == if opens then SetWal(old(storage.files), k, closing.wal) else old(storage.files)
    {
      hide GetsThrough, IsFenced, Unfence, Fence;
      var handle := OpenForWriting(k, retries, env);
      if handle.Failure? {
        return Failure(OpenFailed(handle.error));
      }
      storage.files := SetWal(storage.files, k, inPlace.wal);
      var ok := ClosePartition(k, Some(true), closing);
      assert handles == old(handles);
      assert storage.files == SetWal(old(storage.files), k, closing.wal);
      if !ok {
        return Failure(CloseFlushFailed);
      }
      if HasWal(storage.files, k) {
        return Failure(WalRemains);
      }
      if !inPlace.ok {
        return Failure(EngineFlushFailed);
      }
      return Success(());
    }

    /** Seal one partition (Writer only).  An idle partition is opened, flushed
        and closed; one in use is flushed in place. */
    method FlushPartition(k: Key, retries: nat, env: OpenEnv, inPlace: FlushAnswer, closing: FlushAnswer)
      returns (r: Result<(), FlushError>)
      modifies this`handles, storage
      ensures State() == old(State())
      ensures readOnly ==> r == Failure(ReadOnlyManager)
      // In use: the very same handle stays cached, whatever the engine says.
      ensures !readOnly && k in old(handles) ==>
                handles[k] == old(handles)[k] && r == (if inPlace.ok then Success(()) else Failure(EngineFlushFailed))
                && storage.files == SetWal(old(storage.files), k, inPlace.wal)
      // Idle: no handle is left, and a normal return leaves no log file.
      ensures !readOnly && k !in old(handles) ==> k !in handles && (r.Success? ==> !HasWal(storage.files, k))
      ensures !readOnly && k !in old(handles) ==>
                (r.Success? <==> k in old(storage.files) && GetsThrough(env.open, 0, retries)
                                 && inPlace.ok && closing.ok && !closing.wal)
      ensures OnlyWal(old(storage.files), storage.files, k) && storage.now >= old(storage.now)
      // Idle: why it fails, and the log flag that the close leaves.
      ensures var opens := k in old(storage.files) && GetsThrough(env.open, 0, retries);
              !readOnly && k !in old(handles) ==>
                && (!opens <==> r.Failure? && r.error.OpenFailed?)
                && (opens && !closing.ok ==> r == Failure(CloseFlushFailed))
                && (opens && closing.ok && closing.wal ==> r == Failure(WalRemains))
                && (opens && closing.ok && !closing.wal && !inPlace.ok ==> r == Failure(EngineFlushFailed))
                && storage.files == if opens then SetWal(old(storage.files), k, closing.wal) else old(storage.files)
    {
      if readOnly {
        return Failure(ReadOnlyManager);
      }
      if k in handles {
        storage.files := SetWal(storage.files, k, inPlace.wal);
        if !inPlace.ok {
          return Failure(EngineFlushFailed);
        }
        return Success(());
      }
      r := FlushIdle(k, retries, env, inPlace, closing);
    }

    /** Sealing `k` will work. */
    ghost predicate Seals(k: Key, env: OpenEnv, inPlace: FlushAnswer, closing: FlushAnswer)
      reads this, storage
    {
      !readOnly && inPlace.ok
      && (k in handles || (k in storage.files && GetsThrough(env.open, 0, 8) && closing.ok && !closing.wal))
    }

    ghost function Unsealed(db: string, coll: string, parts: seq<string>, env: Key -> OpenEnv,
                            inPlace: Key -> FlushAnswer, closing: Key -> FlushAnswer): set<string>
      reads this, storage
    {
      set p | p in parts && !Seals(Key(db, coll, p), env(Key(db, coll, p)), inPlace(Key(db, coll, p)), closing(Key(db, coll, p)))
    }

    /** The seal endpoint: flush each partition, collect the failures. */
    method InternalFlush(db: string, coll: string, partitionNames: seq<string>, env: Key -> OpenEnv,
                         inPlace: Key -> FlushAnswer, closing: Key -> FlushAnswer) returns (errors: seq<(string, FlushError)>)
      modifies this`handles, storage
      ensures State() == old(State())
      // Reported are exactly the partitions that could not be sealed.
      ensures Reported(errors) == old(Unsealed(db, coll, OrDefault(partitionNames), env, inPlace, closing))
      // Every partition that was idle and is not reported stands without a log file.
      ensures forall p <- OrDefault(partitionNames) ::
                p !in Reported(errors) && Key(db, coll, p) !in old(handles) ==> !HasWal(storage.files, Key(db, coll, p))
    {
      var parts := OrDefault(partitionNames);
      errors := [];
      for i := 0 to |parts|
        invariant State() == old(State()) && storage.files.Keys == old(storage.files).Keys
        invariant Reported(errors) == old(Unsealed(db, coll, parts[..i], env, inPlace, closing))
        invariant forall p <- parts[..i] ::
                    p !in Reported(errors) && Key(db, coll, p) !in old(handles) ==> !HasWal(storage.files, Key(db, coll, p))
      {
        var k := Key(db, coll, parts[i]);
        assert parts[..i + 1] == parts[..i] + [parts[i]];
        var r := FlushPartition(k, 8, env(k), inPlace(k), closing(k));
        if r.Failure? {
          ReportedSnoc(errors, (parts[i], r.error));
          errors := errors + [(parts[i], r.error)];
        }
      }
      assert parts[..|parts|] == parts;
    }
  }

  /** The partitions that a list of failures names. */
  function Reported(errors: seq<(string, FlushError)>): set<string> {
    set e | e in errors :: e.0
  }

  lemma ReportedSnoc(errors: seq<(string, FlushError)>, e: (string, FlushError))
    ensures Reported(errors + [e]) == Reported(errors) + {e.0}
  {
  }
}
