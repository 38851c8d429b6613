/** Fence windows: between the step that fences a partition and the step that
    lifts the fence, the Reader holds no handle on it, in every run. */
module FenceWindow {
  import opened Wrappers
  import opened Partitions
  import opened Protocol

  /** The job never spells the wildcard as a partition name. */
  predicate StarFree(job: Job) {
    (job.CloseNotice? || job.WriteOp?) ==> ANY_PART !in job.parts
  }

  ghost predicate StarFreeJobs(s: Sys) {
    forall n | 0 <= n < |s.tasks| :: StarFree(s.tasks[n].job)
  }

  ghost predicate NoStarFence(prog: seq<Instr>) {
    forall x <- prog :: x.FenceStep? ==> ANY_PART !in x.parts
  }

  /** The instruction that event `e` executes in `s`, if any. */
  function HeadOf(s: Sys, e: Event): Option<Instr> {
    if e.Step? && e.t < |s.tasks| && s.tasks[e.t].status == Running && s.tasks[e.t].prog != []
    then Some(s.tasks[e.t].prog[0]) else None
  }

  /** The event fences `k`: under its own name, or with its whole collection. */
  predicate FencesNamed(s: Sys, e: Event, k: Key) {
    var h := HeadOf(s, e);
    h.Some? && h.value.FenceStep? && h.value.parts != [] && k in Keys(h.value.db, h.value.coll, h.value.parts)
  }

  predicate FencesWhole(s: Sys, e: Event, k: Key) {
    var h := HeadOf(s, e);
    h.Some? && h.value.FenceStep? && h.value.parts == [] && InCollection(k, h.value.db, h.value.coll)
  }

  /** The event lifts a named fence on `k`. */
  predicate LiftsNamed(s: Sys, e: Event, k: Key) {
    var h := HeadOf(s, e);
    h.Some? && h.value.UnfenceStep? && InCollection(k, h.value.db, h.value.coll)
    && (h.value.parts == [] || k.part in h.value.parts || k.part == ANY_PART)
  }

  /** The event lifts the collection-wide fence over `k`: any unfence does. */
  predicate LiftsWhole(s: Sys, e: Event, k: Key) {
    var h := HeadOf(s, e);
    h.Some? && h.value.UnfenceStep? && InCollection(k, h.value.db, h.value.coll)
  }

  // ---------- one event ----------

  lemma ReactNamedExclusion(m: Manager, disk: Disk, now: nat, x: Instr, answer: OpenAnswer, order: seq<Key>)
    requires m.readOnly && NamedExclusion(m)
    ensures NamedExclusion(React(m, disk, now, x, answer, order).reader)
  {
  }

  lemma NamedExclusionStep(s: Sys, e: Event)
    requires Clocked(s) && NamedExclusion(s.reader)
    ensures NamedExclusion(Next(s, e).reader)
  {
    var h := HeadOf(s, e);
    if h.Some? {
      ReactNamedExclusion(s.reader, s.disk, s.now, h.value, e.answer, e.order);
    }
  }

  lemma ReactExclusion(m: Manager, disk: Disk, now: nat, x: Instr, answer: OpenAnswer, order: seq<Key>)
    requires m.readOnly && Exclusion(m)
    requires x.FenceStep? ==> ANY_PART !in x.parts
    ensures Exclusion(React(m, disk, now, x, answer, order).reader)
  {
  }

  lemma ExclusionStep(s: Sys, e: Event)
    requires Clocked(s) && Exclusion(s.reader)
    requires var h := HeadOf(s, e); h.Some? && h.value.FenceStep? ==> ANY_PART !in h.value.parts
    ensures Exclusion(Next(s, e).reader)
  {
    var h := HeadOf(s, e);
    if h.Some? {
      ReactExclusion(s.reader, s.disk, s.now, h.value, e.answer, e.order);
    }
  }

  /** No program ever gains an instruction that fences "*". */
  lemma ReactAddsNoFence(m: Manager, disk: Disk, now: nat, x: Instr, answer: OpenAnswer, order: seq<Key>)
    ensures forall y <- React(m, disk, now, x, answer, order).todo :: !y.FenceStep?
  {
    ListsNoFence(order);
  }

  lemma NoStarFenceStep(s: Sys, e: Event, n: nat)
    requires n < |Next(s, e).tasks| && StarFree(Next(s, e).tasks[n].job)
    requires n < |s.tasks| ==> NoStarFence(s.tasks[n].prog)
    ensures NoStarFence(Next(s, e).tasks[n].prog)
  {
    if n >= |s.tasks| {
      assert Next(s, e).tasks[n] == NewTask(e.job, s);
      ProgramNoStarFence(e.job);
    } else if e.Step? && e.t == n && s.tasks[n].prog != [] {
      ReactAddsNoFence(s.reader, s.disk, s.now, s.tasks[n].prog[0], e.answer, e.order);
      AfterWritesWithin(s.tasks[n].prog[1..]);
    }
  }

  lemma ListsNoFence(ks: seq<Key>)
    ensures forall x <- Closes(ks) + UnfencedReopens(ks) + Visits(ks) + Writes(ks) + Uses(ks)
                        + Reopens(ks, true) + Reopens(ks, false) :: !x.FenceStep?
  {
  }

  lemma PassNoFence(visits: seq<Visit>)
    ensures forall x <- PassProgram(visits) :: !x.FenceStep?
  {
    if visits != [] {
      PassNoFence(visits[1..]);
      if visits[0].Loaded? {
        ListsNoFence(KeysOf(visits[0].db, visits[0].coll, visits[0].parts));
      }
    }
  }

  lemma RoundsNoFence(ks: seq<Key>, rounds: nat)
    ensures forall x <- UseRounds(ks, rounds) :: !x.FenceStep?
  {
    ListsNoFence(ks);
  }

  lemma ProgramNoStarFence(job: Job)
    requires StarFree(job)
    ensures NoStarFence(Program(job))
  {
    match job
    case ReadRequest(db, coll, parts, refresh, rounds) =>
      ListsNoFence(KeysOf(db, coll, parts));
      RoundsNoFence(KeysOf(db, coll, parts), rounds);
    case RefreshPass(visits) => PassNoFence(visits);
    case WriteOp(db, coll, parts, writes, _, _, _) =>
      ListsNoFence(KeysOf(db, coll, OrDefault(parts)));
      ListsNoFence(KeysOf(db, coll, writes));
    case OpenNotice(db, coll, parts) => ListsNoFence(KeysOf(db, coll, OrDefault(parts)));
    case CloseNotice(db, coll, parts, fence) => ListsNoFence(KeysOf(db, coll, parts));
    case _ =>
  }

  // ---------- whole runs ----------

  lemma RunPrefix(s0: Sys, es: seq<Event>, n: nat)
    requires n < |es|
    ensures Run(s0, es[..n + 1]) == Next(Run(s0, es[..n]), es[n])
  {
    assert es[..n + 1][..n] == es[..n];
  }

  /** In every run, no handle is cached under a fence of its own name. */
  lemma {:induction false} NamedExclusionAlways(s0: Sys, es: seq<Event>)
    requires Initial(s0)
    ensures Clocked(Run(s0, es)) && NamedExclusion(Run(s0, es).reader)
  {
    if es != [] {
      NamedExclusionAlways(s0, es[..|es| - 1]);
      EventFrame(Run(s0, es[..|es| - 1]), es[|es| - 1]);
      NamedExclusionStep(Run(s0, es[..|es| - 1]), es[|es| - 1]);
    }
  }

  /** In every run, the Reader opens a partition only where no log file is left
      and no fence stands, and the handle shows the version then on disk. */
  lemma EveryOpenIsClean(s0: Sys, es: seq<Event>, i: nat, k: Key)
    requires Initial(s0) && i < |es|
    requires var m, m' := Run(s0, es[..i]).reader, Run(s0, es[..i + 1]).reader;
             k in m'.handles && !(k in m.handles && m'.handles[k] == m.handles[k])
    ensures var s, h := Run(s0, es[..i]), Run(s0, es[..i + 1]).reader.handles[k];
            && k in s.disk && !HasWal(s.disk, k) && !IsFenced(s.reader, k)
            && h == Handle(s.now, s.disk[k].version)
  {
    NamedExclusionAlways(s0, es[..i]);
    RunPrefix(s0, es, i);
    EventFrame(Run(s0, es[..i]), es[i]);
  }

  lemma StarFreeBefore(s: Sys, e: Event)
    requires StarFreeJobs(Next(s, e))
    ensures StarFreeJobs(s)
  {
    var s' := Next(s, e);
    forall n | 0 <= n < |s.tasks| ensures StarFree(s.tasks[n].job) {
      JobsStay(s, e, n);
      assert StarFree(s'.tasks[n].job);
    }
  }

  /** In every run whose fences never spell "*", no handle is cached under any fence. */
  lemma {:induction false} ExclusionAlways(s0: Sys, es: seq<Event>)
    requires Initial(s0) && StarFreeJobs(Run(s0, es))
    ensures Clocked(Run(s0, es)) && Exclusion(Run(s0, es).reader)
    ensures forall n | 0 <= n < |Run(s0, es).tasks| :: NoStarFence(Run(s0, es).tasks[n].prog)
  {
    if es != [] {
      var s, e := Run(s0, es[..|es| - 1]), es[|es| - 1];
      StarFreeBefore(s, e);
      ExclusionAlways(s0, es[..|es| - 1]);
      EventFrame(s, e);
      ExclusionStep(s, e);
      forall n | 0 <= n < |Next(s, e).tasks| ensures NoStarFence(Next(s, e).tasks[n].prog) {
        NoStarFenceStep(s, e, n);
      }
    }
  }

  lemma ReactKeepsFence(m: Manager, disk: Disk, now: nat, x: Instr, answer: OpenAnswer, order: seq<Key>, k: Key)
    requires k in m.fenced
    requires !(x.UnfenceStep? && InCollection(k, x.db, x.coll)
               && (x.parts == [] || k.part in x.parts || k.part == ANY_PART))
    ensures k in React(m, disk, now, x, answer, order).reader.fenced
  {
  }

  lemma FenceStays(s: Sys, e: Event, k: Key)
    requires k in s.reader.fenced && !LiftsNamed(s, e, k)
    ensures k in Next(s, e).reader.fenced
  {
    var h := HeadOf(s, e);
    if h.Some? {
      ReactKeepsFence(s.reader, s.disk, s.now, h.value, e.answer, e.order, k);
    }
  }

  lemma FenceTaken(s: Sys, e: Event, k: Key)
    ensures FencesNamed(s, e, k) ==> k in Next(s, e).reader.fenced
    ensures FencesWhole(s, e, k) ==> Key(k.db, k.coll, ANY_PART) in Next(s, e).reader.fenced
  {
  }

  /** The fence taken in step i on the name `f` is still there in front of step j. */
  lemma {:induction false} FenceHeld(s0: Sys, es: seq<Event>, i: nat, j: nat, f: Key)
    requires i < j <= |es| && f in Next(Run(s0, es[..i]), es[i]).reader.fenced
    requires forall n | i < n < j :: !LiftsNamed(Run(s0, es[..n]), es[n], f)
    ensures f in Run(s0, es[..j]).reader.fenced
  {
    hide Next, Run, LiftsNamed;
    RunPrefix(s0, es, j - 1);
    if i + 1 < j {
      FenceHeld(s0, es, i, j - 1, f);
      FenceStays(Run(s0, es[..j - 1]), es[j - 1], f);
    }
  }

  /** From the step that fences `k` by name until a step that lifts that fence,
      whatever else runs in between, `k` stays fenced and has no handle. */
  lemma NamedFenceWindow(s0: Sys, es: seq<Event>, i: nat, j: nat, k: Key)
    requires Initial(s0) && i < j <= |es|
    requires FencesNamed(Run(s0, es[..i]), es[i], k)
    requires forall n | i < n < j :: !LiftsNamed(Run(s0, es[..n]), es[n], k)
    ensures IsFenced(Run(s0, es[..j]).reader, k) && k !in Run(s0, es[..j]).reader.handles
  {
    FenceTaken(Run(s0, es[..i]), es[i], k);
    FenceHeld(s0, es, i, j, k);
    NamedExclusionAlways(s0, es[..j]);
  }

  /** `k` is shut off by a collection-wide fence. */
  ghost predicate ShutOff(m: Manager, k: Key) {
    Key(k.db, k.coll, ANY_PART) in m.fenced && k !in m.handles
  }

  lemma ShutOffStays(s: Sys, e: Event, k: Key)
    requires Clocked(s) && ShutOff(s.reader, k) && !LiftsWhole(s, e, k)
    ensures ShutOff(Next(s, e).reader, k)
  {
    EventFrame(s, e);
    FenceStays(s, e, Key(k.db, k.coll, ANY_PART));
  }

  lemma WholeFenceShuts(s: Sys, e: Event, k: Key)
    requires FencesWhole(s, e, k)
    ensures ShutOff(Next(s, e).reader, k)
  {
  }

  /** The same for a collection-wide fence, until any unfence in the collection,
      whatever other fences spell. */
  lemma {:induction false} WholeFenceWindow(s0: Sys, es: seq<Event>, i: nat, j: nat, k: Key)
    requires Initial(s0) && i < j <= |es|
    requires FencesWhole(Run(s0, es[..i]), es[i], k)
    requires forall n | i < n < j :: !LiftsWhole(Run(s0, es[..n]), es[n], k)
    ensures IsFenced(Run(s0, es[..j]).reader, k) && k !in Run(s0, es[..j]).reader.handles
    ensures ShutOff(Run(s0, es[..j]).reader, k)
  {
    hide Next, Run, LiftsWhole, FencesWhole, Initial;
    RunPrefix(s0, es, j - 1);
    if i + 1 < j {
      WholeFenceWindow(s0, es, i, j - 1, k);
      NamedExclusionAlways(s0, es[..j - 1]);
      ShutOffStays(Run(s0, es[..j - 1]), es[j - 1], k);
    } else {
      WholeFenceShuts(Run(s0, es[..i]), es[i], k);
    }
  }
}
