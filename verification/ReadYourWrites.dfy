/** No Reader handle is ever stale, in any run: what that rests on, and what the
    fence adds to it. */
module ReadYourWrites {
  import opened Wrappers
  import opened Partitions
  import opened Protocol
  import opened FenceWindow

  // ---------- every handle shows what is on disk ----------

  /** A handle on the directory that is on disk shows its version, and no log
      file lies beside it. */
  ghost predicate Current(m: Manager, disk: Disk) {
    forall k <- m.handles :: Attached(m, disk, k) ==> m.handles[k].version == disk[k].version && !disk[k].wal
  }

  lemma ReactCurrent(m: Manager, disk: Disk, now: nat, x: Instr, answer: OpenAnswer, order: seq<Key>)
    requires m.readOnly && Current(m, disk) && forall k <- disk :: disk[k].born < now
    ensures var o := React(m, disk, now, x, answer, order); Current(o.reader, o.disk)
  {
  }

  lemma CurrentStep(s: Sys, e: Event)
    requires Clocked(s) && Current(s.reader, s.disk)
    ensures Current(Next(s, e).reader, Next(s, e).disk)
  {
    hide React;
    var h := HeadOf(s, e);
    if h.Some? {
      ReactCurrent(s.reader, s.disk, s.now, h.value, e.answer, e.order);
    }
  }

  /** In every run, whatever overlaps and whatever notices are lost, a Reader
      handle on the directory that is on disk shows exactly what is there. */
  lemma {:induction false} HandlesAlwaysCurrent(s0: Sys, es: seq<Event>)
    requires Initial(s0)
    ensures Clocked(Run(s0, es)) && Current(Run(s0, es).reader, Run(s0, es).disk)
  {
    NamedExclusionAlways(s0, es);
    if es != [] {
      HandlesAlwaysCurrent(s0, es[..|es| - 1]);
      CurrentStep(Run(s0, es[..|es| - 1]), es[|es| - 1]);
    }
  }

  // ---------- handles on directories that are gone ----------

  /** The partition was dropped at event number t or later. */
  ghost predicate DroppedSince(s0: Sys, es: seq<Event>, k: Key, t: nat) {
    exists j | 0 <= j < |es| :: es[j] == DropPart(k) && s0.now + j >= t
  }

  lemma {:induction false} NowCounts(s0: Sys, es: seq<Event>)
    ensures Run(s0, es).now == s0.now + |es|
  {
    if es != [] {
      NowCounts(s0, es[..|es| - 1]);
    }
  }

  lemma BirthStep(s: Sys, e: Event, k: Key)
    requires k in s.disk && e != DropPart(k)
    ensures k in Next(s, e).disk && Next(s, e).disk[k].born == s.disk[k].born
  {
    if e.Step? && e.t < |s.tasks| && s.tasks[e.t].prog != [] {
      BirthReact(s.reader, s.disk, s.now, s.tasks[e.t].prog[0], e.answer, e.order, k);
      hide React;
    }
  }

  lemma BirthReact(m: Manager, disk: Disk, now: nat, x: Instr, answer: OpenAnswer, order: seq<Key>, k: Key)
    requires k in disk
    ensures var o := React(m, disk, now, x, answer, order); k in o.disk && o.disk[k].born == disk[k].born
  {
  }

  lemma AttachedStep(s: Sys, e: Event, k: Key)
    requires Clocked(s) && k in Next(s, e).reader.handles
    requires k in s.reader.handles && Next(s, e).reader.handles[k] == s.reader.handles[k] ==> Attached(s.reader, s.disk, k)
    ensures Attached(Next(s, e).reader, Next(s, e).disk, k) || e == DropPart(k)
    ensures Next(s, e).reader.handles[k].openedAt <= s.now
  {
    hide Next, Clocked;
    EventFrame(s, e);
    if e != DropPart(k) {
      assert k in s.disk && Next(s, e).reader.handles[k].openedAt >= s.disk[k].born by {
        ClockedBirth(s, k);
      }
      BirthStep(s, e, k);
    }
    ClockedBirth(s, k);
  }

  lemma ClockedBirth(s: Sys, k: Key)
    requires Clocked(s)
    ensures k in s.disk ==> s.disk[k].born < s.now
    ensures k in s.reader.handles ==> s.reader.handles[k].openedAt < s.now
  {
  }

  /** A cached handle is on the directory that is on disk, unless the partition
      was dropped since the handle was opened. */
  lemma {:induction false} AttachedUnlessDropped(s0: Sys, es: seq<Event>, k: Key)
    requires Initial(s0) && k in Run(s0, es).reader.handles
    ensures var s := Run(s0, es); Attached(s.reader, s.disk, k) || DroppedSince(s0, es, k, s.reader.handles[k].openedAt)
  {
    if es != [] {
      var l := |es| - 1;
      var s, s', e := Run(s0, es[..l]), Run(s0, es), es[l];
      NamedExclusionAlways(s0, es[..l]);
      NowCounts(s0, es[..l]);
      if k in s.reader.handles && s'.reader.handles[k] == s.reader.handles[k] {
        AttachedUnlessDropped(s0, es[..l], k);
        if j :| 0 <= j < l && es[..l][j] == DropPart(k) && s0.now + j >= s.reader.handles[k].openedAt {
          assert es[j] == DropPart(k);
        } else {
          AttachedStep(s, e, k);
        }
      } else {
        AttachedStep(s, e, k);
      }
    }
  }

  // ---------- what an operation wrote stays visible ----------

  /** The disk is never older than what an operation wrote. */
  ghost predicate WritesOnDisk(disk: Disk, now: nat, t: Task) {
    forall k <- t.wrote :: t.wrote[k] < now && (k in disk ==> disk[k].version >= t.wrote[k])
  }

  lemma WritesOnDiskEvent(s: Sys, e: Event, n: nat)
    requires Clocked(s) && n < |s.tasks| && WritesOnDisk(s.disk, s.now, s.tasks[n])
    ensures n < |Next(s, e).tasks|
    ensures var s' := Next(s, e); WritesOnDisk(s'.disk, s'.now, s'.tasks[n])
  {
    EventFrame(s, e);
  }

  lemma {:induction false} WritesStayOnDisk(s0: Sys, es: seq<Event>, n: nat)
    requires Initial(s0) && n < |Run(s0, es).tasks|
    ensures var s := Run(s0, es); WritesOnDisk(s.disk, s.now, s.tasks[n])
  {
    if es != [] {
      var s, e := Run(s0, es[..|es| - 1]), es[|es| - 1];
      NamedExclusionAlways(s0, es[..|es| - 1]);
      if n < |s.tasks| {
        WritesStayOnDisk(s0, es[..|es| - 1], n);
        WritesOnDiskEvent(s, e, n);
      }
    }
  }

  /** Read your writes, or refuse, in every run.  From the moment an operation
      has written version v of a partition: a cached Reader handle on it shows
      at least v, unless the partition was dropped since; a handle opened next
      shows at least v; and while a log file is pending there is no handle on
      the partition, and the next open fails. */
  lemma NoStaleHandleSurvives(s0: Sys, es: seq<Event>, n: nat, k: Key, now: nat, answer: OpenAnswer)
    requires Initial(s0) && n < |Run(s0, es).tasks| && k in Run(s0, es).tasks[n].wrote
    ensures var s, v := Run(s0, es), Run(s0, es).tasks[n].wrote[k];
            var next := SecondBlock(s.reader, s.disk, now, k, false, answer);
            && (k in s.reader.handles ==>
                  s.reader.handles[k].version >= v || DroppedSince(s0, es, k, s.reader.handles[k].openedAt))
            && (next.Opened? ==> next.h.version >= v)
            && (HasWal(s.disk, k) ==>
                  !Attached(s.reader, s.disk, k)
                  && (k !in s.reader.handles ==> next == Fail(Fenced) || next == Fail(PendingWal)))
  {
    HandlesAlwaysCurrent(s0, es);
    WritesStayOnDisk(s0, es, n);
    if k in Run(s0, es).reader.handles {
      AttachedUnlessDropped(s0, es, k);
    }
  }

  // ---------- what the fence is for: a write is not refused ----------

  /** A write is refused because of a Reader handle only where no fence of that
      name stands.  Who has lifted it is in WriteOutcomes.dfy. */
  lemma RefusedOnlyUnfenced(s0: Sys, es: seq<Event>, e: Event, k: Key)
    requires Initial(s0) && HeadOf(Run(s0, es), e) == Some(WriteTo(k))
    ensures var s := Run(s0, es);
            && (e.answer.OpenOk? && k in s.disk && k in s.reader.fenced ==> CanWrite(s.reader, s.disk, k, e.answer))
            && (e.answer.OpenOk? && k in s.disk && !CanWrite(s.reader, s.disk, k, e.answer) ==> k in s.reader.handles)
  {
    NamedExclusionAlways(s0, es);
  }

  /** The collection a Writer operation works on. */
  function Scope(job: Job): Option<(string, string)> {
    if job.WriteOp? || job.OpenNotice? || job.UnfenceNotice? then Some((job.db, job.coll)) else None
  }

  /** `insert` writes the first partition it fences, `delete` each of them; a
      lost reopen notice only leaves the fence up, after a lost close notice the
      write may meet a handle. */
  predicate WellFormedOp(job: Job) {
    job.WriteOp? ==> job.closeDelivered && job.parts != [] && forall p <- job.writes :: p in job.parts
  }

  /** Writer operations on one collection do not overlap, and every write
      follows a delivered close notice. */
  ghost predicate Disciplined(s: Sys) {
    && (forall n | 0 <= n < |s.tasks| :: WellFormedOp(s.tasks[n].job))
    && (forall i, j | 0 <= i < j < |s.tasks| && s.tasks[i].status == Running && s.tasks[j].status == Running ::
          Scope(s.tasks[i].job).None? || Scope(s.tasks[i].job) != Scope(s.tasks[j].job))
  }

  ghost predicate DisciplinedRun(s0: Sys, es: seq<Event>) {
    forall n | 0 <= n <= |es| :: Disciplined(Run(s0, es[..n]))
  }

  // ---------- writes come under the task's own fence ----------

  /** Every write in the program comes after a fence on its partition and before any unfence. */
  ghost predicate Covered(prog: seq<Instr>, held: set<Key>) {
    prog == [] || ((prog[0].WriteTo? ==> prog[0].k in held) && Covered(prog[1..], HeldAfter(held, prog[0])))
  }

  predicate Quiet(x: Instr) {
    !x.WriteTo? && !x.FenceStep? && !x.UnfenceStep?
  }

  lemma {:induction false} CoveredQuiet(a: seq<Instr>, b: seq<Instr>, held: set<Key>)
    requires AllQuiet(a) && Covered(b, held)
    ensures Covered(a + b, held)
  {
    if a == [] {
      assert a + b == b;
    } else {
      assert Quiet(a[0]) && (a + b)[1..] == a[1..] + b;
      CoveredQuiet(a[1..], b, held);
    }
  }

  lemma {:induction false} CoveredWrites(ks: seq<Key>, b: seq<Instr>, held: set<Key>)
    requires (forall k <- ks :: k in held) && Covered(b, held)
    ensures Covered(Writes(ks) + b, held)
  {
    if ks == [] {
      assert Writes(ks) + b == b;
    } else {
      assert (Writes(ks) + b)[0] == WriteTo(ks[0]);
      assert (Writes(ks) + b)[1..] == Writes(ks[1..]) + b;
      CoveredWrites(ks[1..], b, held);
    }
  }

  lemma {:induction false} CoveredAfterWrites(prog: seq<Instr>, held: set<Key>)
    requires Covered(prog, held)
    ensures Covered(AfterWrites(prog), held)
  {
    if prog != [] && prog[0].WriteTo? {
      CoveredAfterWrites(prog[1..], held);
    }
  }

  ghost predicate AllQuiet(prog: seq<Instr>) {
    forall x <- prog :: Quiet(x)
  }

  lemma ListsQuiet(ks: seq<Key>)
    ensures AllQuiet(Closes(ks)) && AllQuiet(UnfencedReopens(ks)) && AllQuiet(Visits(ks)) && AllQuiet(Uses(ks))
    ensures AllQuiet(Reopens(ks, true)) && AllQuiet(Reopens(ks, false))
  {
  }

  lemma RoundsQuiet(ks: seq<Key>, rounds: nat)
    ensures AllQuiet(UseRounds(ks, rounds))
  {
    ListsQuiet(ks);
  }

  lemma PassQuiet(visits: seq<Visit>)
    ensures AllQuiet(PassProgram(visits))
  {
    if visits != [] {
      PassQuiet(visits[1..]);
      if visits[0].Loaded? {
        ListsQuiet(KeysOf(visits[0].db, visits[0].coll, visits[0].parts));
      }
    }
  }

  predicate ReadsOnly(job: Job) {
    job.ReadRequest? || job.RefreshPass? || job.ReloadNotice? || (job.CloseNotice? && !job.fence)
  }

  lemma ReadingProgramQuiet(job: Job)
    requires ReadsOnly(job)
    ensures AllQuiet(Program(job))
  {
    match job
    case ReadRequest(db, coll, parts, refresh, rounds) =>
      ListsQuiet(KeysOf(db, coll, parts));
      RoundsQuiet(KeysOf(db, coll, parts), rounds);
    case RefreshPass(visits) => PassQuiet(visits);
    case CloseNotice(db, coll, parts, _) => ListsQuiet(KeysOf(db, coll, parts));
    case _ =>
  }

  lemma ReactQuiet(m: Manager, disk: Disk, now: nat, x: Instr, answer: OpenAnswer, order: seq<Key>)
    ensures AllQuiet(React(m, disk, now, x, answer, order).todo)
  {
    ListsQuiet(order);
  }

  lemma CoveredOpens(db: string, coll: string, parts: seq<string>, held: set<Key>)
    ensures Covered(OpenProgram(db, coll, parts), held) && Covered([UnfenceStep(db, coll, parts)], held)
  {
    var ps := OrDefault(parts);
    var rs := Reopens(KeysOf(db, coll, ps), true);
    ListsQuiet(KeysOf(db, coll, ps));
    assert rs + [] == rs;
    CoveredQuiet(rs, [], {});
    assert OpenProgram(db, coll, parts)[1..] == rs;
    assert [UnfenceStep(db, coll, parts)][1..] == [];
  }

  lemma WriteProgramCovered(job: Job)
    requires WellFormedOp(job) && job.WriteOp?
    ensures Covered(Program(job), {})
  {
    var held := Keys(job.db, job.coll, job.parts);
    var tail := ReopenTail(job);
    CoveredOpens(job.db, job.coll, job.parts, held);
    var ks := KeysOf(job.db, job.coll, job.writes);
    forall k | k in ks ensures k in held {
      var i :| 0 <= i < |ks| && ks[i] == k;
      assert k == Key(job.db, job.coll, job.writes[i]) && job.writes[i] in job.parts;
    }
    CoveredWrites(ks, tail, held);
    assert Program(job) == [FenceStep(job.db, job.coll, job.parts)] + (Writes(ks) + tail);
    assert {} + held == held;
  }

  function ReopenTail(job: Job): seq<Instr>
    requires job.WriteOp?
  {
    if !job.reopenDelivered then []
    else if job.loaded then OpenProgram(job.db, job.coll, job.parts)
    else [UnfenceStep(job.db, job.coll, job.parts)]
  }

  lemma ProgramCovered(job: Job)
    requires WellFormedOp(job)
    ensures Covered(Program(job), {})
  {
    match job
    case WriteOp(_, _, _, _, _, _, _) => WriteProgramCovered(job);
    case OpenNotice(db, coll, parts) => CoveredOpens(db, coll, parts, {});
    case UnfenceNotice(db, coll, parts) => CoveredOpens(db, coll, parts, {});
    case CloseNotice(db, coll, parts, fence) =>
      if fence {
        assert [FenceStep(db, coll, parts)][1..] == [];
      } else {
        QuietProgramCovered(job);
      }
    case _ => QuietProgramCovered(job);
  }

  lemma QuietProgramCovered(job: Job)
    requires ReadsOnly(job)
    ensures Covered(Program(job), {})
  {
    ReadingProgramQuiet(job);
    assert Program(job) + [] == Program(job);
    CoveredQuiet(Program(job), [], {});
  }

  /** The fences and unfences of a task stay inside its scope; what it holds is fenced. */
  ghost predicate InScope(t: Task) {
    && (forall x <- t.prog :: x.UnfenceStep? ==> Scope(t.job) == Some((x.db, x.coll)))
    && (forall x <- t.prog :: x.FenceStep? && t.job.WriteOp? ==> Scope(t.job) == Some((x.db, x.coll)) && x.parts != [])
    && (t.job.WriteOp? ==> forall k <- t.held :: Scope(t.job) == Some((k.db, k.coll)))
  }

  ghost predicate HoldsFence(m: Manager, t: Task) {
    t.status == Running && t.job.WriteOp? ==> forall k <- t.held :: k in m.fenced
  }

  ghost predicate OnlyOpsWrite(t: Task) {
    !t.job.WriteOp? ==> forall x <- t.prog :: !x.WriteTo?
  }

  ghost predicate OpState(m: Manager, t: Task) {
    Covered(t.prog, t.held) && InScope(t) && HoldsFence(m, t) && OnlyOpsWrite(t)
  }

  lemma OpenProgramInScope(db: string, coll: string, parts: seq<string>)
    ensures forall x <- OpenProgram(db, coll, parts) :: !x.WriteTo? && !x.FenceStep?
    ensures forall x <- OpenProgram(db, coll, parts) :: x.UnfenceStep? ==> x.db == db && x.coll == coll
  {
    var ps := OrDefault(parts);
    ListsQuiet(KeysOf(db, coll, ps));
    forall x | x in OpenProgram(db, coll, parts)
      ensures x == UnfenceStep(db, coll, ps) || Quiet(x)
    {
      assert x == UnfenceStep(db, coll, ps) || x in Reopens(KeysOf(db, coll, ps), true);
    }
  }

  lemma WriteProgramInScope(job: Job)
    requires WellFormedOp(job) && job.WriteOp?
    ensures forall x <- Program(job) :: x.UnfenceStep? || x.FenceStep? ==> Scope(job) == Some((x.db, x.coll))
    ensures forall x <- Program(job) :: x.FenceStep? ==> x.parts != []
  {
    var ws := Writes(KeysOf(job.db, job.coll, job.writes));
    WritesOnly(KeysOf(job.db, job.coll, job.writes));
    OpenProgramInScope(job.db, job.coll, job.parts);
    assert Program(job) == [FenceStep(job.db, job.coll, job.parts)] + ws + ReopenTail(job);
    forall x | x in Program(job)
      ensures x == FenceStep(job.db, job.coll, job.parts) || x in ws || x in ReopenTail(job)
    {
    }
  }

  lemma ProgramInScope(job: Job)
    requires WellFormedOp(job)
    ensures forall x <- Program(job) :: x.UnfenceStep? ==> Scope(job) == Some((x.db, x.coll))
    ensures forall x <- Program(job) :: x.FenceStep? && job.WriteOp? ==> Scope(job) == Some((x.db, x.coll)) && x.parts != []
    ensures !job.WriteOp? ==> forall x <- Program(job) :: !x.WriteTo?
  {
    match job {
      case WriteOp(_, _, _, _, _, _, _) => WriteProgramInScope(job);
      case OpenNotice(db, coll, parts) => OpenProgramInScope(db, coll, parts);
      case UnfenceNotice(_, _, _) =>
      case CloseNotice(db, coll, parts, fence) =>
        if fence {
          assert Program(job) == [FenceStep(db, coll, parts)];
        } else {
          ReadingProgramQuiet(job);
        }
      case _ => ReadingProgramQuiet(job);
    }
  }

  lemma WritesOnly(ks: seq<Key>)
    ensures forall x <- Writes(ks) :: x.WriteTo?
  {
  }

  lemma OpStateItself(m: Manager, disk: Disk, now: nat, t: Task, answer: OpenAnswer, order: seq<Key>)
    requires t.prog != [] && t.status == Running && OpState(m, t)
    ensures var o := React(m, disk, now, t.prog[0], answer, order);
            OpState(o.reader, Advance(t, m, disk, now, o))
  {
    var x := t.prog[0];
    var o := React(m, disk, now, x, answer, order);
    var t' := Advance(t, m, disk, now, o);
    ReactQuiet(m, disk, now, x, answer, order);
    assert x in t.prog;
    AfterWritesWithin(t.prog[1..]);
    if o.abort {
      CoveredAfterWrites(t.prog[1..], t'.held);
    } else {
      CoveredQuiet(o.todo, t.prog[1..], t'.held);
    }
    if !x.UnfenceStep? {
      forall k | k in m.fenced ensures k in o.reader.fenced {
        ReactKeepsFence(m, disk, now, x, answer, order, k);
      }
    }
  }

  /** Another task's instruction does not lift the fences of a running operation. */
  lemma OpStateOthers(m: Manager, disk: Disk, now: nat, u: Task, t: Task, answer: OpenAnswer, order: seq<Key>)
    requires u.prog != [] && InScope(u) && OpState(m, t)
    requires t.status == Running && Scope(t.job).Some? ==> Scope(t.job) != Scope(u.job)
    ensures OpState(React(m, disk, now, u.prog[0], answer, order).reader, t)
  {
    var x := u.prog[0];
    if t.status == Running && t.job.WriteOp? {
      forall k | k in t.held ensures k in React(m, disk, now, x, answer, order).reader.fenced {
        assert x in u.prog;
        ReactKeepsFence(m, disk, now, x, answer, order, k);
      }
    }
  }

  lemma OpStateEvent(s: Sys, e: Event, n: nat)
    requires n < |Next(s, e).tasks| && Disciplined(s) && Disciplined(Next(s, e))
    requires forall i | 0 <= i < |s.tasks| :: OpState(s.reader, s.tasks[i])
    ensures OpState(Next(s, e).reader, Next(s, e).tasks[n])
  {
    var s' := Next(s, e);
    if n >= |s.tasks| {
      assert s'.tasks[n] == NewTask(e.job, s);
      assert WellFormedOp(s'.tasks[n].job);
      ProgramCovered(e.job);
      ProgramInScope(e.job);
    } else if HeadOf(s, e).Some? {
      if e.t == n {
        OpStateItself(s.reader, s.disk, s.now, s.tasks[n], e.answer, e.order);
      } else {
        OpStateOthers(s.reader, s.disk, s.now, s.tasks[e.t], s.tasks[n], e.answer, e.order);
      }
    }
  }

  lemma {:induction false} OpStateAlways(s0: Sys, es: seq<Event>, n: nat)
    requires Initial(s0) && DisciplinedRun(s0, es) && n < |Run(s0, es).tasks|
    ensures OpState(Run(s0, es).reader, Run(s0, es).tasks[n])
  {
    if es != [] {
      var s, e := Run(s0, es[..|es| - 1]), es[|es| - 1];
      DisciplinedBefore(s0, es);
      forall i | 0 <= i < |s.tasks| ensures OpState(s.reader, s.tasks[i]) {
        OpStateAlways(s0, es[..|es| - 1], i);
      }
      OpStateEvent(s, e, n);
    }
  }

  lemma DisciplinedBefore(s0: Sys, es: seq<Event>)
    requires es != [] && DisciplinedRun(s0, es)
    ensures DisciplinedRun(s0, es[..|es| - 1])
    ensures Disciplined(Run(s0, es[..|es| - 1])) && Disciplined(Run(s0, es))
  {
    var l := |es| - 1;
    forall n | 0 <= n <= l ensures Disciplined(Run(s0, es[..l][..n])) {
      assert es[..l][..n] == es[..n];
    }
    assert es[..|es|] == es;
  }

  /** When operations on one collection do not overlap and close notices are
      delivered, a write never meets a Reader handle: it goes through whenever
      the partition exists and the engine itself does not fail. */
  lemma NoWriteIsRefused(s0: Sys, es: seq<Event>, e: Event, k: Key)
    requires Initial(s0) && DisciplinedRun(s0, es) && HeadOf(Run(s0, es), e) == Some(WriteTo(k))
    ensures var s := Run(s0, es);
            && k in s.reader.fenced && k !in s.reader.handles
            && (CanWrite(s.reader, s.disk, k, e.answer) <==> k in s.disk && e.answer.OpenOk?)
            && (CanWrite(s.reader, s.disk, k, e.answer) ==>
                  && k in Next(s, e).disk && Next(s, e).disk[k].version == s.now
                  && e.t < |Next(s, e).tasks| && k in Next(s, e).tasks[e.t].wrote)
  {
    hide Run, Next, Initial, DisciplinedRun, React;
    var s := Run(s0, es);
    OpStateAlways(s0, es, e.t);
    NamedExclusionAlways(s0, es);
    assert s.tasks[e.t].prog[0] in s.tasks[e.t].prog;
    if CanWrite(s.reader, s.disk, k, e.answer) {
      WriteLands(s, e, k);
    }
  }

  lemma WriteLands(s: Sys, e: Event, k: Key)
    requires HeadOf(s, e) == Some(WriteTo(k)) && CanWrite(s.reader, s.disk, k, e.answer)
    ensures k in Next(s, e).disk && Next(s, e).disk[k].version == s.now
    ensures e.t < |Next(s, e).tasks| && k in Next(s, e).tasks[e.t].wrote
  {
  }
}
