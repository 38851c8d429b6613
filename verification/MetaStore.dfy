/** The metadata store as a class: the Writer's exclusive copy with its engine,
    and the Reader's copy that follows the published snapshot. */
module MetaStore {
  import opened Wrappers
  import opened Relations
  import Crash
  import FlatStore

  /** The files both processes share. */
  class MetaFiles {
    var engine: Crash.Docs
    var snapshot: Option<Crash.Docs>
    var tmp: Crash.Tmp

    constructor ()
      ensures engine == map[] && snapshot == None && tmp == Crash.NoTmp
    {
      engine := map[];
      snapshot := None;
      tmp := Crash.NoTmp;
    }
  }

  datatype StoreError = StoreReadOnly | NotOpened | NotReady | EngineFailed | SnapshotFailed

  /** How far a snapshot write comes before it raises: nothing, a torn temporary
      file, a whole one, or all of it. */
  type FlushSteps = n: nat | n <= FLUSHED
  const FLUSHED: nat := 3

  class MetaStore {
    const files: MetaFiles
    const readOnly: bool
    var docs: Crash.Docs
    var isOpen: bool
    var hasEngine: bool   // the Writer's engine handle; open may raise after it has got one

    constructor (files: MetaFiles, readOnly: bool)
      ensures this.files == files && this.readOnly == readOnly && docs == map[] && !isOpen && !hasEngine
    {
      this.files := files;
      this.readOnly := readOnly;
      docs := map[];
      isOpen := false;
      hasEngine := false;
    }

    /** The abstract state, for a Writer. */
    function State(): Crash.Store
      reads this, files
    {
      Crash.Store(files.engine, files.snapshot, files.tmp, docs, isOpen)
    }

    ghost predicate InSync()
      reads this, files
    {
      !readOnly && hasEngine && Crash.Synced(State())
    }

    /** Engine and cache agree; the snapshot may lag behind. */
    ghost predicate Mirrored()
      reads this, files
    {
      !readOnly && hasEngine && isOpen && files.engine == docs
    }

    method FlushSnapshot(flush: FlushSteps) returns (ok: bool)
      modifies files`snapshot, files`tmp
      ensures ok <==> flush == FLUSHED
      ensures files.snapshot == if ok then Some(docs) else old(files.snapshot)
      ensures files.tmp == if flush == 0 then old(files.tmp) else if flush == 1 then Crash.Torn
                           else if flush == 2 then Crash.Whole(docs) else Crash.NoTmp
    {
      if flush == 0 {
        return false;
      }
      files.tmp := Crash.Torn;
      if flush == 1 {
        return false;
      }
      files.tmp := Crash.Whole(docs);
      if flush == 2 {
        return false;
      }
      files.snapshot := Some(docs);
      files.tmp := Crash.NoTmp;
      return true;
    }

    /** Writer: rebuild from the engine or fall back to the snapshot.  Reader:
        the snapshot, or an error while there is none.  When the snapshot write
        raises, the store is as after that many steps. */
    method Open(engineOk: bool, scanOk: bool, flush: FlushSteps) returns (error: Option<StoreError>)
      modifies this, files`snapshot, files`tmp
      ensures !readOnly && !engineOk ==> error == Some(EngineFailed) && State() == old(State())
      ensures hasEngine == (old(hasEngine) || (!readOnly && engineOk))
      ensures !readOnly && engineOk && (flush == FLUSHED || !Crash.Republishes(old(State()), scanOk)) ==>
                error == None && State() == Crash.Open(old(State()), scanOk)
      ensures !readOnly && engineOk && flush < FLUSHED && Crash.Republishes(old(State()), scanOk) ==>
                error == Some(SnapshotFailed) && State() == Crash.Opening(old(State()), scanOk, 1 + flush)
      ensures readOnly ==> files.snapshot == old(files.snapshot) && files.tmp == old(files.tmp)
      ensures readOnly && files.snapshot.None? ==> error == Some(NotReady) && docs == old(docs) && isOpen == old(isOpen)
      ensures readOnly && files.snapshot.Some? ==> error == None && docs == files.snapshot.value && isOpen
    {
      if readOnly {
        if files.snapshot.None? {
          return Some(NotReady);
        }
        docs := files.snapshot.value;
        isOpen := true;
        return None;
      }
      if !engineOk {
        return Some(EngineFailed);
      }
      Crash.UnrollOpening(State(), scanOk);
      hasEngine := true;
      docs := if scanOk then files.engine else map[];
      if docs != map[] || files.snapshot.None? {
        var ok := FlushSnapshot(flush);
        if !ok {
          return Some(SnapshotFailed);
        }
      } else {
        docs := files.snapshot.value;
      }
      isOpen := true;
      return None;
    }

    /** Upsert: engine, cache, snapshot.  An engine failure changes nothing.  When
        the snapshot write raises, engine and cache have the change, and the next
        write that goes through publishes it. */
    method Upsert(id: string, doc: Doc, engineOk: bool, flush: FlushSteps) returns (error: Option<StoreError>)
      modifies this`docs, files
      ensures readOnly ==> error == Some(StoreReadOnly)
      ensures !readOnly && !hasEngine ==> error == Some(NotOpened)
      ensures !readOnly && hasEngine && !engineOk ==> error == Some(EngineFailed)
      ensures readOnly || !hasEngine || !engineOk ==> State() == old(State())
      ensures !readOnly && hasEngine && engineOk ==>
                && error == (if flush == FLUSHED then None else Some(SnapshotFailed))
                && State() == Crash.After(old(State()), Crash.Upsert(id, doc), 2 + flush)
                && docs == old(docs)[id := doc]
      ensures old(Mirrored()) ==> Mirrored() && (engineOk && flush == FLUSHED ==> InSync())
    {
      if readOnly {
        return Some(StoreReadOnly);
      }
      if !hasEngine {
        return Some(NotOpened);
      }
      if !engineOk {
        return Some(EngineFailed);
      }
      Crash.UnrollAfter(State(), Crash.Upsert(id, doc));
      files.engine := files.engine[id := doc];
      docs := docs[id := doc];
      var ok := FlushSnapshot(flush);
      return if ok then None else Some(SnapshotFailed);
    }

    /** Delete.  An engine failure is swallowed, also that there is no engine
        handle, and then the engine keeps what the cache has lost.  A failure of
        the snapshot write is raised. */
    method Delete(id: string, engineOk: bool, flush: FlushSteps) returns (error: Option<StoreError>)
      modifies this`docs, files
      ensures readOnly ==> error == Some(StoreReadOnly) && State() == old(State())
      ensures !readOnly ==>
                && error == (if flush == FLUSHED then None else Some(SnapshotFailed))
                && docs == old(docs) - {id}
                && files.snapshot == if flush == FLUSHED then Some(docs) else old(files.snapshot)
      ensures !readOnly ==>
                State() == Crash.After(old(State()), if hasEngine && engineOk then Crash.Remove(id) else Crash.RefusedRemove(id), 2 + flush)
      ensures old(Mirrored()) ==> (Mirrored() <==> engineOk || id !in old(docs))
      ensures old(InSync()) ==> (InSync() <==> id !in old(docs) || (engineOk && flush == FLUSHED))
    {
      if readOnly {
        return Some(StoreReadOnly);
      }
      var removed := hasEngine && engineOk;
      Crash.UnrollAfter(State(), if removed then Crash.Remove(id) else Crash.RefusedRemove(id));
      if removed {
        files.engine := files.engine - {id};
      }
      assert old(Mirrored()) && id !in old(docs) ==> docs - {id} == docs;
      docs := docs - {id};
      var ok := FlushSnapshot(flush);
      return if ok then None else Some(SnapshotFailed);
    }

    /** get: the Reader loads the snapshot first. */
    method Get(id: string) returns (r: Result<Option<Doc>, StoreError>)
      modifies this
      ensures hasEngine == old(hasEngine)
      ensures !readOnly ==> docs == old(docs) && isOpen == old(isOpen)
                            && r == Success(if isOpen && id in docs then Some(docs[id]) else None)
      ensures readOnly && files.snapshot.None? ==> r == Failure(NotReady) && docs == old(docs) && isOpen == old(isOpen)
      ensures readOnly && files.snapshot.Some? ==> docs == files.snapshot.value && isOpen
      ensures readOnly && files.snapshot.Some? ==>
                r == Success(if id in files.snapshot.value then Some(files.snapshot.value[id]) else None)
    {
      if readOnly {
        if files.snapshot.None? {
          return Failure(NotReady);
        }
        docs := files.snapshot.value;
        isOpen := true;
      }
      return Success(if isOpen && id in docs then Some(docs[id]) else None);
    }

    /** list_by_type: every document of a type; the Reader loads the snapshot first. */
    method ListByType(docType: string) returns (r: Result<seq<Doc>, StoreError>)
      modifies this
      ensures hasEngine == old(hasEngine)
      ensures !readOnly ==> docs == old(docs) && isOpen == old(isOpen)
      ensures readOnly && files.snapshot.None? ==> r == Failure(NotReady) && docs == old(docs) && isOpen == old(isOpen)
      ensures readOnly && files.snapshot.Some? ==> r.Success? && docs == files.snapshot.value && isOpen
      ensures !readOnly ==> r.Success?
      ensures r.Success? ==> forall d :: d in r.value <==> d in FlatStore.Rows(docs) && FlatStore.TypeName(KeyOf(d)) == docType
    {
      if readOnly {
        if files.snapshot.None? {
          return Failure(NotReady);
        }
        docs := files.snapshot.value;
        isOpen := true;
      }
      var found: seq<Doc>, left := [], docs.Keys;
      while left != {}
        invariant left <= docs.Keys
        invariant forall d :: d in found <==>
                    FlatStore.TypeName(KeyOf(d)) == docType && exists id <- docs.Keys - left :: docs[id] == d
        decreases left
      {
        var id :| id in left;
        if FlatStore.TypeName(KeyOf(docs[id])) == docType {
          found := found + [docs[id]];
        }
        left := left - {id};
      }
      return Success(found);
    }

    /** Close: publish once more, then forget.  A failure to publish is swallowed. */
    method Close(flush: FlushSteps)
      modifies this, files`snapshot, files`tmp
      ensures docs == map[] && !isOpen && !hasEngine
      ensures files.snapshot == if !readOnly && old(isOpen) && flush == FLUSHED then Some(old(docs)) else old(files.snapshot)
    {
      if !readOnly && isOpen {
        var _ := FlushSnapshot(flush);
      }
      docs := map[];
      isOpen := false;
      hasEngine := false;
    }
  }

  /** A delete after close goes past the missing engine handle and publishes the
      emptied cache: every Reader then finds an empty catalog, while the engine
      still has everything. */
  method DeleteAfterCloseEmpties(store: MetaStore, id: string)
    requires store.InSync()
    modifies store, store.files
    ensures store.files.snapshot == Some(map[]) && store.files.engine == old(store.files.engine)
  {
    store.Close(FLUSHED);
    Crash.UnrollAfter(store.State(), Crash.RefusedRemove(id));
    var error := store.Delete(id, true, FLUSHED);
  }
}
