/** How old a Reader handle can be: refreshed reads and refresh passes. */
module Freshness {
  import opened Partitions
  import opened Protocol
  import opened FenceWindow

  /** A handle cached for `k`, if any, was opened at `t0` or later. */
  ghost predicate Young(m: Manager, k: Key, t0: nat) {
    k in m.handles ==> m.handles[k].openedAt >= t0
  }

  /** A handle opened since the task began shows at least what was on disk then. */
  ghost predicate ShowsStart(t: Task, k: Key, h: Handle) {
    k in t.startDisk ==> h.version >= t.startDisk[k].version
  }

  /** What a task may conclude from the partitions it closed. */
  ghost predicate Seen(m: Manager, disk: Disk, now: nat, t: Task) {
    && t.start < now
    && (forall k <- t.popped :: Young(m, k, t.start))
    && (forall c, k | c in t.poppedColls && k in m.handles && InCollection(k, c.0, c.1) :: Young(m, k, t.start))
    && (forall k <- m.handles :: m.handles[k].openedAt >= t.start ==> ShowsStart(t, k, m.handles[k]))
    && (forall k <- t.startDisk :: t.startDisk[k].version < t.start && (k in disk ==> disk[k].version >= t.startDisk[k].version))
  }

  // ---------- one event ----------

  lemma SeenByOthers(m: Manager, disk: Disk, now: nat, t: Task, m': Manager, disk': Disk)
    requires Seen(m, disk, now, t) && HandleStep(m, disk, now, m') && DiskStep(disk, now, disk')
    ensures Seen(m', disk', now + 1, t)
  {
  }

  lemma SeenByItself(m: Manager, disk: Disk, now: nat, t: Task, answer: OpenAnswer, order: seq<Key>)
    requires t.prog != [] && m.readOnly && Seen(m, disk, now, t)
    ensures var o := React(m, disk, now, t.prog[0], answer, order);
            Seen(o.reader, o.disk, now + 1, Advance(t, m, disk, now, o))
  {
    var x := t.prog[0];
    ReactFrame(m, disk, now, x, answer, order);
    var o := React(m, disk, now, x, answer, order);
    SeenByOthers(m, disk, now, t, o.reader, o.disk);
    var t' := Advance(t, m, disk, now, o);
    forall k | k in t'.popped ensures Young(o.reader, k, t'.start) {
    }
    forall c, k | c in t'.poppedColls && k in o.reader.handles && InCollection(k, c.0, c.1)
      ensures Young(o.reader, k, t'.start)
    {
    }
  }

  lemma SeenStep(s: Sys, e: Event, n: nat)
    requires Clocked(s) && n < |Next(s, e).tasks|
    requires n < |s.tasks| ==> Seen(s.reader, s.disk, s.now, s.tasks[n])
    ensures var s' := Next(s, e); Seen(s'.reader, s'.disk, s'.now, s'.tasks[n])
  {
    EventFrame(s, e);
    if n >= |s.tasks| {
      assert Next(s, e).tasks[n] == NewTask(e.job, s);
    } else if HeadOf(s, e).Some? && e.t == n {
      SeenByItself(s.reader, s.disk, s.now, s.tasks[n], e.answer, e.order);
    } else {
      SeenByOthers(s.reader, s.disk, s.now, s.tasks[n], Next(s, e).reader, Next(s, e).disk);
    }
  }

  lemma {:induction false} SeenAlways(s0: Sys, es: seq<Event>, n: nat)
    requires Initial(s0) && n < |Run(s0, es).tasks|
    ensures var s := Run(s0, es); Clocked(s) && Seen(s.reader, s.disk, s.now, s.tasks[n])
  {
    NamedExclusionAlways(s0, es);
    if es != [] {
      var s := Run(s0, es[..|es| - 1]);
      NamedExclusionAlways(s0, es[..|es| - 1]);
      if n < |s.tasks| {
        SeenAlways(s0, es[..|es| - 1], n);
      }
      SeenStep(s, es[|es| - 1], n);
    }
  }

  lemma StartAdds(s: Sys, job: Job)
    ensures Next(s, Start(job)).tasks == s.tasks + [NewTask(job, s)]
  {
  }

  ghost predicate KeepsTask(s: Sys, s': Sys, n: nat) {
    && n < |s.tasks| && n < |s'.tasks|
    && s'.tasks[n].job == s.tasks[n].job && s'.tasks[n].start == s.tasks[n].start
    && s'.tasks[n].startDisk == s.tasks[n].startDisk
  }

  lemma KeepsTaskStep(s0: Sys, s: Sys, e: Event, n: nat)
    requires KeepsTask(s0, s, n)
    ensures KeepsTask(s0, Next(s, e), n)
  {
  }

  lemma {:induction false} TaskKept(s: Sys, es: seq<Event>, n: nat)
    requires n < |s.tasks|
    ensures KeepsTask(s, Run(s, es), n)
  {
    if es != [] {
      var l := |es| - 1;
      TaskKept(s, es[..l], n);
      KeepsTaskStep(s, Run(s, es[..l]), es[l], n);
    }
  }

  ghost function Fold<A, B>(f: (A, B) -> A, a: A, bs: seq<B>): A {
    if bs == [] then a else f(Fold(f, a, bs[..|bs| - 1]), bs[|bs| - 1])
  }

  lemma {:induction false} FoldSplit<A, B>(f: (A, B) -> A, a: A, bs: seq<B>, i: nat)
    requires i <= |bs|
    ensures Fold(f, a, bs) == Fold(f, Fold(f, a, bs[..i]), bs[i..])
  {
    if i == |bs| {
      assert bs[..i] == bs;
    } else {
      var l := |bs| - 1;
      assert bs[..l][..i] == bs[..i] && bs[..l][i..] == bs[i..][..|bs[i..]| - 1];
      FoldSplit(f, a, bs[..l], i);
    }
  }

  lemma {:induction false} RunIsFold(s0: Sys, es: seq<Event>)
    ensures Run(s0, es) == Fold(Next, s0, es)
  {
    if es != [] {
      RunIsFold(s0, es[..|es| - 1]);
    }
  }

  /** A run may be cut anywhere. */
  lemma RunSplit(s0: Sys, es: seq<Event>, i: nat)
    requires i <= |es|
    ensures Run(s0, es) == Run(Run(s0, es[..i]), es[i..])
  {
    RunIsFold(s0, es);
    RunIsFold(s0, es[..i]);
    RunIsFold(Run(s0, es[..i]), es[i..]);
    FoldSplit(Next, s0, es, i);
  }

  /** The task started by event i keeps that number, job, time and disk. */
  lemma StartRecorded(s0: Sys, es: seq<Event>, i: nat)
    requires i < |es| && es[i].Start?
    ensures var b, s := Run(s0, es[..i]), Run(s0, es);
            && |b.tasks| < |s.tasks| && s.tasks[|b.tasks|].job == es[i].job
            && s.tasks[|b.tasks|].start == b.now && s.tasks[|b.tasks|].startDisk == b.disk
  {
    var b := Run(s0, es[..i]);
    RunSplit(s0, es, i + 1);
    RunPrefix(s0, es, i);
    StartAdds(b, es[i].job);
    var s := Next(b, es[i]);
    assert s.tasks[|b.tasks|] == NewTask(es[i].job, b);
    TaskKept(s, es[i + 1..], |b.tasks|);
  }

  // ---------- refreshed reads ----------

  predicate IsUse(x: Instr) {
    (x.OpenFirst? || x.OpenSecond?) && x.uses
  }

  /** Every read-through handle comes after the task closed that partition. */
  ghost predicate Guarded(prog: seq<Instr>, closed: set<Key>) {
    prog == [] || ((IsUse(prog[0]) ==> prog[0].k in closed) && Guarded(prog[1..], closed + PoppedBy(prog[0])))
  }

  lemma {:induction false} GuardedMore(prog: seq<Instr>, p: set<Key>, q: set<Key>)
    requires Guarded(prog, p) && p <= q
    ensures Guarded(prog, q)
  {
    if prog != [] {
      GuardedMore(prog[1..], p + PoppedBy(prog[0]), q + PoppedBy(prog[0]));
    }
  }

  lemma {:induction false} GuardedConcat(a: seq<Instr>, b: seq<Instr>, closed: set<Key>)
    requires forall x <- a :: IsUse(x) ==> x.k in closed
    requires Guarded(b, closed)
    ensures Guarded(a + b, closed)
  {
    if a == [] {
      assert a + b == b;
    } else {
      assert (a + b)[1..] == a[1..] + b;
      GuardedMore(b, closed, closed + PoppedBy(a[0]));
      GuardedConcat(a[1..], b, closed + PoppedBy(a[0]));
    }
  }

  lemma {:induction false} GuardedCloses(ks: seq<Key>, b: seq<Instr>, closed: set<Key>)
    requires Guarded(b, closed + set k | k in ks)
    ensures Guarded(Closes(ks) + b, closed)
  {
    if ks == [] {
      assert Closes(ks) + b == b;
      assert closed + (set k | k in ks) == closed;
    } else {
      var p := Closes(ks) + b;
      assert p[0] == CloseOne(ks[0]) && p[1..] == Closes(ks[1..]) + b;
      assert closed + {ks[0]} + (set k | k in ks[1..]) == closed + set k | k in ks;
      GuardedCloses(ks[1..], b, closed + {ks[0]});
    }
  }

  lemma ListsUse(ks: seq<Key>)
    ensures forall x <- Closes(ks) + UnfencedReopens(ks) + Reopens(ks, false) :: !IsUse(x)
    ensures forall x <- Uses(ks) :: IsUse(x) && x.k in ks
  {
  }

  lemma RoundsUse(ks: seq<Key>, rounds: nat)
    ensures forall x <- UseRounds(ks, rounds) :: IsUse(x) && x.k in ks
  {
    ListsUse(ks);
  }

  lemma ReadProgramGuarded(job: Job)
    requires job.ReadRequest? && job.refresh
    ensures Guarded(Program(job), {})
  {
    var ks := KeysOf(job.db, job.coll, job.parts);
    var tail := [AwaitSeal] + Reopens(ks, false) + UseRounds(ks, job.rounds);
    ListsUse(ks);
    RoundsUse(ks, job.rounds);
    assert tail + [] == tail;
    GuardedConcat(tail, [], {} + set k | k in ks);
    GuardedCloses(ks, tail, {});
    assert Program(job) == Closes(ks) + tail;
  }

  lemma {:induction false} GuardedAfterWrites(prog: seq<Instr>, closed: set<Key>)
    requires Guarded(prog, closed)
    ensures Guarded(AfterWrites(prog), closed)
  {
    if prog != [] && prog[0].WriteTo? {
      assert closed + PoppedBy(prog[0]) == closed;
      GuardedAfterWrites(prog[1..], closed);
    }
  }

  ghost predicate FreshUses(t: Task) {
    forall u <- t.used :: u.1.openedAt >= t.start && ShowsStart(t, u.0, u.1)
  }

  lemma ReactTodoUses(m: Manager, disk: Disk, now: nat, x: Instr, answer: OpenAnswer, order: seq<Key>)
    ensures forall y <- React(m, disk, now, x, answer, order).todo :: IsUse(y) ==> IsUse(x) && y.k == x.k
  {
    ListsUse(order);
  }

  lemma GuardedStep(m: Manager, disk: Disk, now: nat, t: Task, answer: OpenAnswer, order: seq<Key>)
    requires t.prog != [] && Guarded(t.prog, t.popped)
    ensures var t' := Advance(t, m, disk, now, React(m, disk, now, t.prog[0], answer, order));
            Guarded(t'.prog, t'.popped)
  {
    hide React;
    var o := React(m, disk, now, t.prog[0], answer, order);
    var popped := t.popped + PoppedBy(t.prog[0]);
    ReactTodoUses(m, disk, now, t.prog[0], answer, order);
    if o.abort {
      GuardedAfterWrites(t.prog[1..], popped);
    } else {
      GuardedConcat(o.todo, t.prog[1..], popped);
    }
  }

  lemma FreshUsesStep(m: Manager, disk: Disk, now: nat, t: Task, answer: OpenAnswer, order: seq<Key>)
    requires t.prog != [] && m.readOnly && Seen(m, disk, now, t)
    requires Guarded(t.prog, t.popped) && FreshUses(t)
    ensures var t' := Advance(t, m, disk, now, React(m, disk, now, t.prog[0], answer, order));
            Guarded(t'.prog, t'.popped) && FreshUses(t')
  {
    hide Guarded;
    GuardedStep(m, disk, now, t, answer, order);
    assert IsUse(t.prog[0]) ==> t.prog[0].k in t.popped by {
      GuardedHead(t.prog, t.popped);
    }
  }

  lemma GuardedHead(prog: seq<Instr>, closed: set<Key>)
    requires Guarded(prog, closed) && prog != []
    ensures IsUse(prog[0]) ==> prog[0].k in closed
  {
  }

  lemma {:induction false} FreshUsesAlways(s0: Sys, es: seq<Event>, n: nat)
    requires Initial(s0) && n < |Run(s0, es).tasks|
    requires var j := Run(s0, es).tasks[n].job; j.ReadRequest? && j.refresh
    ensures var t := Run(s0, es).tasks[n]; Guarded(t.prog, t.popped) && FreshUses(t)
  {
    if es != [] {
      var s, e := Run(s0, es[..|es| - 1]), es[|es| - 1];
      if n >= |s.tasks| {
        assert Next(s, e).tasks[n] == NewTask(e.job, s);
        ReadProgramGuarded(e.job);
      } else {
        JobsStay(s, e, n);
        FreshUsesAlways(s0, es[..|es| - 1], n);
        SeenAlways(s0, es[..|es| - 1], n);
        if HeadOf(s, e).Some? && e.t == n {
          FreshUsesStep(s.reader, s.disk, s.now, s.tasks[n], e.answer, e.order);
        }
      }
    }
  }

  /** A partition is used or still on the list of partitions to use. */
  ghost predicate UsedOrListed(t: Task, k: Key) {
    (exists h :: (k, h) in t.used) || (exists x <- t.prog :: IsUse(x) && x.k == k) || t.raising
  }

  lemma UsedOrListedStep(m: Manager, disk: Disk, now: nat, t: Task, answer: OpenAnswer, order: seq<Key>, k: Key)
    requires t.prog != [] && UsedOrListed(t, k) && t.status == Running && t.job.ReadRequest?
    requires forall x <- t.prog :: IsUse(x) ==> x.fatal
    ensures var t' := Advance(t, m, disk, now, React(m, disk, now, t.prog[0], answer, order));
            UsedOrListed(t', k) && forall x <- t'.prog :: IsUse(x) ==> x.fatal
  {
    var x := t.prog[0];
    var o := React(m, disk, now, x, answer, order);
    var t' := Advance(t, m, disk, now, o);
    ReactTodoFatal(m, disk, now, x, answer, order);
    AfterWritesWithin(t.prog[1..]);
    if h :| (k, h) in t.used {
      assert (k, h) in t'.used;
    } else if !t'.raising {
      var y :| y in t.prog && IsUse(y) && y.k == k;
      if y in t.prog[1..] {
        assert y in t'.prog;
      } else {
        assert y == x;
        if o.got.Some? {
          assert (k, o.got.value) in t'.used;
        } else {
          assert o.todo == [OpenSecond(k, true, true)];
          assert o.todo[0] in t'.prog;
        }
      }
    }
  }

  lemma ReactTodoFatal(m: Manager, disk: Disk, now: nat, x: Instr, answer: OpenAnswer, order: seq<Key>)
    requires IsUse(x) ==> x.fatal
    ensures forall y <- React(m, disk, now, x, answer, order).todo :: IsUse(y) ==> y.fatal
  {
    ListsUse(order);
  }

  lemma UsesListed(ks: seq<Key>, k: Key)
    requires k in ks
    ensures OpenFirst(k, false, true, true) in Uses(ks)
  {
  }

  lemma UsesFatal(ks: seq<Key>, rounds: nat)
    ensures forall x <- UseRounds(ks, rounds) + Uses(ks) :: x.OpenFirst? && x.fatal
  {
    if ks != [] && rounds == 0 {
      UsesFatal(ks[1..], rounds);
    } else if rounds > 0 {
      UsesFatal(ks, rounds - 1);
    }
  }

  lemma ReadProgramListsAll(job: Job, k: Key)
    requires job.ReadRequest? && job.rounds > 0 && k in KeysOf(job.db, job.coll, job.parts)
    ensures OpenFirst(k, false, true, true) in Program(job)
    ensures forall x <- Program(job) :: IsUse(x) ==> x.fatal
  {
    var ks := KeysOf(job.db, job.coll, job.parts);
    UsesListed(ks, k);
    UsesFatal(ks, job.rounds);
    ListsUse(ks);
    assert UseRounds(ks, job.rounds) == Uses(ks) + UseRounds(ks, job.rounds - 1);
  }

  lemma {:induction false} AllUsedAlways(s0: Sys, es: seq<Event>, n: nat, k: Key)
    requires n < |Run(s0, es).tasks|
    requires var j := Run(s0, es).tasks[n].job; j.ReadRequest? && j.rounds > 0 && k in KeysOf(j.db, j.coll, j.parts)
    requires s0.tasks == []
    ensures var t := Run(s0, es).tasks[n]; UsedOrListed(t, k) && forall x <- t.prog :: IsUse(x) ==> x.fatal
  {
    if es != [] {
      var s, e := Run(s0, es[..|es| - 1]), es[|es| - 1];
      if n >= |s.tasks| {
        assert Next(s, e).tasks[n] == NewTask(e.job, s);
        ReadProgramListsAll(e.job, k);
      } else {
        JobsStay(s, e, n);
        AllUsedAlways(s0, es[..|es| - 1], n, k);
        if HeadOf(s, e).Some? && e.t == n {
          UsedOrListedStep(s.reader, s.disk, s.now, s.tasks[n], e.answer, e.order, k);
        }
      }
    }
  }

  lemma {:induction false} ReturnedIsDone(s0: Sys, es: seq<Event>, n: nat)
    requires n < |Run(s0, es).tasks| && s0.tasks == []
    ensures var t := Run(s0, es).tasks[n];
            && (t.status == Running <==> t.prog != [])
            && (t.status == Returned ==> !t.raising) && (t.status == Raised ==> t.raising)
  {
    if es != [] {
      var s := Run(s0, es[..|es| - 1]);
      if n < |s.tasks| {
        ReturnedIsDone(s0, es[..|es| - 1], n);
      }
    }
  }

  /** Refresh freshness.  A get, query or search started by event i with
      `refresh=True` reads only through handles opened after it began, each
      showing at least what was on disk at that moment; and if it returns, it
      read every partition asked for.  Other requests may open and close handles
      at any point in between. */
  lemma RefreshedReadsAreFresh(s0: Sys, es: seq<Event>, i: nat)
    requires Initial(s0) && i < |es| && es[i].Start? && es[i].job.ReadRequest? && es[i].job.refresh
    ensures var b, job := Run(s0, es[..i]), es[i].job;
            && |b.tasks| < |Run(s0, es).tasks|
            && var t := Run(s0, es).tasks[|b.tasks|];
            && (forall u <- t.used ::
                  u.1.openedAt >= b.now && (u.0 in b.disk ==> u.1.version >= b.disk[u.0].version))
            && (t.status == Returned && job.rounds > 0 ==>
                  forall p <- job.parts :: exists h :: (Key(job.db, job.coll, p), h) in t.used)
  {
    StartRecorded(s0, es, i);
    var n := |Run(s0, es[..i]).tasks|;
    FreshUsesAlways(s0, es, n);
    ReturnedIsDone(s0, es, n);
    var t, job := Run(s0, es).tasks[n], es[i].job;
    assert t.job == job;
    assert FreshUses(t);
    if t.status == Returned && job.rounds > 0 {
      forall p | p in job.parts ensures exists h :: (Key(job.db, job.coll, p), h) in t.used {
        var q :| 0 <= q < |job.parts| && job.parts[q] == p;
        assert KeysOf(job.db, job.coll, job.parts)[q] == Key(job.db, job.coll, p);
        AllUsedAlways(s0, es, n, Key(job.db, job.coll, p));
      }
    }
  }
}
