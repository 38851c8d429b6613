/** The Writer/Reader hand-over as a step system.

    A task is one request, handler or background pass.  Its program lists what
    it still has to do on the Reader's handle cache and on the disk, one
    instruction for each locked block and each stretch between awaits.  An
    event starts a task, runs the next instruction of one task, or changes a
    partition directory from the Writer's side.  A run is any sequence of
    events, so all theorems quantify over every interleaving.  The asyncio
    `coord_lock` of the Reader only removes interleavings; nothing here relies
    on it.

    The engine's lock is part of the system: it is shared for read-only opens
    and exclusive for read-write ones.  While the Reader caches a handle on a
    partition, the Writer's open fails, so no write and no change of its log
    happens.  The Writer opens, writes and closes in one stretch, which is one
    step, so the Reader never meets it half-way.
 */
module Protocol {
  import opened Wrappers
  import opened Partitions

  datatype Instr =
    | CloseOne(k: Key)                                   // close_partition(flush=False)
    | CloseAll(db: string, coll: string)                 // close_collection
    | FenceStep(db: string, coll: string, parts: seq<string>)
    | UnfenceStep(db: string, coll: string, parts: seq<string>)
    | AwaitSeal                                          // await seal_partitions_via_writer
    | ReadCatalog                                        // the refresh loop reloads the snapshot, which may raise
    | VisitPart(k: Key)                                  // one turn of the refresh loop's inner loop
    | Reopen(k: Key, fatal: bool)                        // has_wal check, then open_partition(force_reopen=True)
    | ReopenUnfenced(k: Key)                             // the same behind an is_fenced check
    | ReloadKeys                                         // open_keys(), close each, seal the dirty, reopen
    | OpenFirst(k: Key, force: bool, fatal: bool, uses: bool)
    | OpenSecond(k: Key, fatal: bool, uses: bool)
    | WriteTo(k: Key)                                    // the Writer's handle.insert/upsert/delete

  /** What the refresh loop comes to, one after the other. */
  datatype Visit = CatalogRead | NotLoaded(db: string, coll: string) | Loaded(db: string, coll: string, parts: seq<string>)

  datatype Job =
    | ReadRequest(db: string, coll: string, parts: seq<string>, refresh: bool, rounds: nat)
    | RefreshPass(visits: seq<Visit>)
    | OpenNotice(db: string, coll: string, parts: seq<string>)
    | CloseNotice(db: string, coll: string, parts: seq<string>, fence: bool)
    | UnfenceNotice(db: string, coll: string, parts: seq<string>)
    | ReloadNotice
    | WriteOp(db: string, coll: string, parts: seq<string>, writes: seq<string>, loaded: bool,
              closeDelivered: bool, reopenDelivered: bool)

  // ---------- programs ----------

  function KeysOf(db: string, coll: string, parts: seq<string>): (ks: seq<Key>)
    ensures |ks| == |parts| && forall i | 0 <= i < |ks| :: ks[i] == Key(db, coll, parts[i])
  {
    seq(|parts|, i requires 0 <= i < |parts| => Key(db, coll, parts[i]))
  }

  function Closes(ks: seq<Key>): seq<Instr> {
    if ks == [] then [] else [CloseOne(ks[0])] + Closes(ks[1..])
  }

  function Reopens(ks: seq<Key>, fatal: bool): seq<Instr> {
    if ks == [] then [] else [Reopen(ks[0], fatal)] + Reopens(ks[1..], fatal)
  }

  function UnfencedReopens(ks: seq<Key>): seq<Instr> {
    if ks == [] then [] else [ReopenUnfenced(ks[0])] + UnfencedReopens(ks[1..])
  }

  function Visits(ks: seq<Key>): seq<Instr> {
    if ks == [] then [] else [VisitPart(ks[0])] + Visits(ks[1..])
  }

  function Uses(ks: seq<Key>): seq<Instr> {
    if ks == [] then [] else [OpenFirst(ks[0], false, true, true)] + Uses(ks[1..])
  }

  function UseRounds(ks: seq<Key>, rounds: nat): seq<Instr> {
    if rounds == 0 then [] else Uses(ks) + UseRounds(ks, rounds - 1)
  }

  function Writes(ks: seq<Key>): seq<Instr> {
    if ks == [] then [] else [WriteTo(ks[0])] + Writes(ks[1..])
  }

  function PassProgram(visits: seq<Visit>): seq<Instr> {
    if visits == [] then []
    else
      (match visits[0]
       case CatalogRead => [ReadCatalog]
       case NotLoaded(db, coll) => [CloseAll(db, coll)]
       case Loaded(db, coll, parts) => Visits(KeysOf(db, coll, parts)))
      + PassProgram(visits[1..])
  }

  function OpenProgram(db: string, coll: string, parts: seq<string>): seq<Instr> {
    [UnfenceStep(db, coll, OrDefault(parts))] + Reopens(KeysOf(db, coll, OrDefault(parts)), true)
  }

  function Program(job: Job): seq<Instr> {
    match job
    case ReadRequest(db, coll, parts, refresh, rounds) =>
      var ks := KeysOf(db, coll, parts);
      (if refresh then Closes(ks) + [AwaitSeal] + Reopens(ks, false) else []) + UseRounds(ks, rounds)
    case RefreshPass(visits) => PassProgram(visits)
    case OpenNotice(db, coll, parts) => OpenProgram(db, coll, parts)
    case CloseNotice(db, coll, parts, fence) =>
      if fence then [FenceStep(db, coll, parts)]
      else if parts != [] then Closes(KeysOf(db, coll, parts))
      else [CloseAll(db, coll)]
    case UnfenceNotice(db, coll, parts) => [UnfenceStep(db, coll, parts)]
    case ReloadNotice => [ReloadKeys]
    case WriteOp(db, coll, parts, writes, loaded, closeDelivered, reopenDelivered) =>
      (if closeDelivered then [FenceStep(db, coll, parts)] else [])
      + Writes(KeysOf(db, coll, writes))
      + (if !reopenDelivered then []
         else if loaded then OpenProgram(db, coll, parts)
         else [UnfenceStep(db, coll, parts)])
  }

  // ---------- states, events, steps ----------

  datatype Status = Running | Returned | Raised

  /** `start`/`startDisk` are the state when the task began; `raising` says that
      an exception is on its way out; `popped` and `poppedColls` are what the
      task has closed, `skipped` what the refresh loop found fenced, `missed`
      the part of that which had a handle, `used` the handles it read through,
      `held` the partitions under its own fence, `wrote` the versions it wrote. */
  datatype Task = Task(job: Job, start: nat, startDisk: Disk, prog: seq<Instr>, status: Status, raising: bool,
                       popped: set<Key>, poppedColls: set<(string, string)>, skipped: set<Key>, missed: set<Key>,
                       used: set<(Key, Handle)>, held: set<Key>, wrote: map<Key, nat>)

  datatype Sys = Sys(now: nat, disk: Disk, reader: Manager, tasks: seq<Task>)

  datatype Event =
    | Start(job: Job)
    | Step(t: nat, answer: OpenAnswer, order: seq<Key>)
    | WalChange(k: Key, wal: bool)      // a Writer open, flush, close or seal
    | CreatePart(k: Key)
    | DropPart(k: Key)

  /** What one instruction does: the new cache and disk, the instructions that
      take its place, whether it raises, and the handle it obtained. */
  datatype Outcome = Outcome(reader: Manager, disk: Disk, todo: seq<Instr>, abort: bool, got: Option<Handle>)

  function Simply(m: Manager, disk: Disk): Outcome {
    Outcome(m, disk, [], false, None)
  }

  function Instead(m: Manager, disk: Disk, todo: seq<Instr>): Outcome {
    Outcome(m, disk, todo, false, None)
  }

  ghost predicate Enumerates(order: seq<Key>, ks: set<Key>) {
    forall k :: k in order <==> k in ks
  }

  /** The Writer gets its exclusive handle. */
  predicate CanWrite(m: Manager, disk: Disk, k: Key, answer: OpenAnswer) {
    k in disk && !Attached(m, disk, k) && answer.OpenOk?
  }

  ghost function React(m: Manager, disk: Disk, now: nat, x: Instr, answer: OpenAnswer, order: seq<Key>): Outcome {
    match x
    case CloseOne(k) => Simply(Close(m, k), disk)
    case CloseAll(db, coll) => Simply(CloseCollection(m, db, coll), disk)
    case FenceStep(db, coll, parts) => Simply(Fence(m, db, coll, parts), disk)
    case UnfenceStep(db, coll, parts) => Simply(Unfence(m, db, coll, parts), disk)
    case AwaitSeal => Simply(m, disk)
    case ReadCatalog => if answer.OpenOk? then Simply(m, disk) else Outcome(m, disk, [], true, None)
    case VisitPart(k) =>
      Instead(m, disk, if IsFenced(m, k) then [] else [CloseOne(k), AwaitSeal, Reopen(k, false)])
    case Reopen(k, fatal) =>
      Instead(m, disk, if HasWal(disk, k) then [] else [OpenFirst(k, true, fatal, false)])
    case ReopenUnfenced(k) =>
      Instead(m, disk, if IsFenced(m, k) then [] else [Reopen(k, false)])
    case ReloadKeys =>
      Instead(m, disk, if Enumerates(order, m.handles.Keys)
                       then Closes(order) + [AwaitSeal] + UnfencedReopens(order) else [ReloadKeys])
    case OpenFirst(k, force, fatal, uses) => (
      if k !in disk then Outcome(m, disk, [], fatal, None)
      else match FirstBlock(m, k, force, false)
      case FencedOut => Outcome(m, disk, [], fatal, None)
      case Cached(h) => Outcome(m, disk, [], false, Some(h))
      case Miss(m1, _) => Instead(m1, disk, [OpenSecond(k, fatal, uses)]))
    case OpenSecond(k, fatal, uses) => (
      match SecondBlock(m, disk, now, k, false, answer)
      case Fail(_) => Outcome(m, disk, [], fatal, None)
      case Hit(h) => Outcome(m, disk, [], false, Some(h))
      case Opened(m1, d1, h) => Outcome(m1, d1, [], false, Some(h)))
    case WriteTo(k) =>
      if CanWrite(m, disk, k, answer) then Simply(m, disk[k := Written(disk[k], now)])
      else Outcome(m, disk, [], true, None)
  }

  /** What the task itself remembers of the instruction. */
  function PoppedBy(x: Instr): set<Key> {
    if x.CloseOne? then {x.k} else {}
  }

  function PoppedCollsBy(x: Instr): set<(string, string)> {
    if x.CloseAll? then {(x.db, x.coll)} else {}
  }

  function SkippedBy(x: Instr, m: Manager): set<Key> {
    if x.VisitPart? && IsFenced(m, x.k) then {x.k} else {}
  }

  function MissedBy(x: Instr, m: Manager): set<Key> {
    if x.VisitPart? && IsFenced(m, x.k) && x.k in m.handles then {x.k} else {}
  }

  function UsedBy(x: Instr, got: Option<Handle>): set<(Key, Handle)> {
    if (x.OpenFirst? || x.OpenSecond?) && x.uses && got.Some? then {(x.k, got.value)} else {}
  }

  function HeldAfter(held: set<Key>, x: Instr): set<Key> {
    if x.FenceStep? then held + Keys(x.db, x.coll, x.parts) else if x.UnfenceStep? then {} else held
  }

  function WroteAfter(wrote: map<Key, nat>, x: Instr, o: Outcome, now: nat): map<Key, nat> {
    if x.WriteTo? && !o.abort then wrote[x.k := now] else wrote
  }

  /** What still runs after an exception: behind a write, the `finally` part of
      `with_reader_released`; elsewhere nothing. */
  function Finally(x: Instr, rest: seq<Instr>): seq<Instr> {
    if x.WriteTo? then AfterWrites(rest) else []
  }

  function AfterWrites(prog: seq<Instr>): seq<Instr> {
    if prog != [] && prog[0].WriteTo? then AfterWrites(prog[1..]) else prog
  }

  /** The answer of a notice is only logged, so of the exceptions in a Writer
      operation those of its writes come out. */
  predicate Escapes(job: Job, x: Instr) {
    job.WriteOp? ==> x.WriteTo?
  }

  function Advance(t: Task, m: Manager, disk: Disk, now: nat, o: Outcome): Task
    requires t.prog != []
  {
    var x := t.prog[0];
    var prog := if o.abort then Finally(x, t.prog[1..]) else o.todo + t.prog[1..];
    var raising := t.raising || (o.abort && Escapes(t.job, x));
    Task(t.job, t.start, t.startDisk, prog,
         if prog != [] then Running else if raising then Raised else Returned, raising,
         t.popped + PoppedBy(x), t.poppedColls + PoppedCollsBy(x), t.skipped + SkippedBy(x, m), t.missed + MissedBy(x, m),
         t.used + UsedBy(x, o.got), HeldAfter(t.held, x), WroteAfter(t.wrote, x, o, now))
  }

  /** An exception adds no instruction. */
  lemma {:induction false} AfterWritesWithin(prog: seq<Instr>)
    ensures forall y <- AfterWrites(prog) :: y in prog
    ensures forall y <- prog :: !y.WriteTo? ==> y in AfterWrites(prog)
  {
    if prog != [] && prog[0].WriteTo? {
      AfterWritesWithin(prog[1..]);
    }
  }

  function NewTask(job: Job, s: Sys): Task {
    Task(job, s.now, s.disk, Program(job), if Program(job) == [] then Returned else Running, false,
         {}, {}, {}, {}, {}, {}, map[])
  }

  ghost function Next(s: Sys, e: Event): Sys {
    match e
    case Start(job) => s.(now := s.now + 1, tasks := s.tasks + [NewTask(job, s)])
    case Step(t, answer, order) =>
      if t < |s.tasks| && s.tasks[t].status == Running && s.tasks[t].prog != [] then
        var o := React(s.reader, s.disk, s.now, s.tasks[t].prog[0], answer, order);
        Sys(s.now + 1, o.disk, o.reader, s.tasks[t := Advance(s.tasks[t], s.reader, s.disk, s.now, o)])
      else s.(now := s.now + 1)
    case WalChange(k, wal) =>
      s.(now := s.now + 1, disk := if Attached(s.reader, s.disk, k) then s.disk else SetWal(s.disk, k, wal))
    case CreatePart(k) =>
      s.(now := s.now + 1, disk := if k in s.disk then s.disk else s.disk[k := PartFile(s.now, s.now, false)])
    case DropPart(k) => s.(now := s.now + 1, disk := s.disk - {k})
  }

  /** A freshly started Reader over any data directory. */
  ghost predicate Initial(s: Sys) {
    && s.reader == Manager(true, map[], {})
    && s.tasks == []
    && forall k <- s.disk :: s.disk[k].born <= s.disk[k].version < s.now
  }

  ghost function Run(s0: Sys, es: seq<Event>): Sys {
    if es == [] then s0 else Next(Run(s0, es[..|es| - 1]), es[|es| - 1])
  }

  // ---------- what every event does to the Reader's cache and the disk ----------

  ghost predicate Clocked(s: Sys) {
    && s.reader.readOnly
    && (forall k <- s.disk :: s.disk[k].born <= s.disk[k].version < s.now)
    && (forall k <- s.reader.handles :: s.reader.handles[k].openedAt < s.now)
  }

  /** A handle in the cache after an event was there before, or was opened in
      that event: on an unfenced partition without a log file, showing the
      version then on disk. */
  ghost predicate HandleStep(m: Manager, disk: Disk, now: nat, m': Manager) {
    forall k <- m'.handles ::
      || (k in m.handles && m'.handles[k] == m.handles[k])
      || (k in disk && !HasWal(disk, k) && !IsFenced(m, k) && m'.fenced == m.fenced
          && m'.handles[k] == Handle(now, disk[k].version))
  }

  /** Versions never go back, and a directory keeps its birth. */
  ghost predicate DiskStep(disk: Disk, now: nat, disk': Disk) {
    forall k <- disk' ::
      || (disk'[k].version == now && (disk'[k].born == now || (k in disk && disk'[k].born == disk[k].born)))
      || (k in disk && disk'[k].version == disk[k].version && disk'[k].born == disk[k].born)
  }

  lemma ReactFrame(m: Manager, disk: Disk, now: nat, x: Instr, answer: OpenAnswer, order: seq<Key>)
    requires m.readOnly
    ensures var o := React(m, disk, now, x, answer, order);
            o.reader.readOnly && HandleStep(m, disk, now, o.reader) && DiskStep(disk, now, o.disk)
  {
  }

  lemma EventFrame(s: Sys, e: Event)
    requires Clocked(s)
    ensures var s' := Next(s, e);
            && Clocked(s') && s'.now == s.now + 1
            && HandleStep(s.reader, s.disk, s.now, s'.reader)
            && DiskStep(s.disk, s.now, s'.disk)
  {
    if e.Step? && e.t < |s.tasks| && s.tasks[e.t].prog != [] {
      ReactFrame(s.reader, s.disk, s.now, s.tasks[e.t].prog[0], e.answer, e.order);
    }
  }

  /** A task keeps its number, its job and its start. */
  lemma JobsStay(s: Sys, e: Event, n: nat)
    requires n < |s.tasks|
    ensures var s' := Next(s, e);
            && n < |s'.tasks| && s'.tasks[n].job == s.tasks[n].job
            && s'.tasks[n].start == s.tasks[n].start && s'.tasks[n].startDisk == s.tasks[n].startDisk
  {
  }
}
