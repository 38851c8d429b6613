/** How a Writer operation ends: what it has written when it returns, and what
    must have happened when a write of it was refused. */
module WriteOutcomes {
  import opened Wrappers
  import opened Partitions
  import opened Protocol
  import opened FenceWindow
  import opened Freshness
  import opened ReadYourWrites

  // ---------- an operation that returns has written everything ----------

  ghost predicate NoWrites(prog: seq<Instr>) {
    forall x <- prog :: !x.WriteTo?
  }

  /** Nothing but the fence comes before a write. */
  ghost predicate WritesFirst(prog: seq<Instr>) {
    NoWrites(prog) || ((prog[0].WriteTo? || prog[0].FenceStep?) && WritesFirst(prog[1..]))
  }

  lemma {:induction false} FirstAfterWrites(prog: seq<Instr>)
    requires WritesFirst(prog)
    ensures WritesFirst(AfterWrites(prog))
  {
    if prog != [] && prog[0].WriteTo? {
      FirstAfterWrites(prog[1..]);
    }
  }

  lemma {:induction false} FirstWrites(ks: seq<Key>, tail: seq<Instr>)
    requires NoWrites(tail)
    ensures WritesFirst(Writes(ks) + tail)
  {
    if ks == [] {
      assert Writes(ks) + tail == tail;
    } else {
      FirstWrites(ks[1..], tail);
      var prog := Writes(ks) + tail;
      assert prog[0] == WriteTo(ks[0]) && prog[1..] == Writes(ks[1..]) + tail;
      hide NoWrites, Writes;
    }
  }

  lemma OpWritesFirst(job: Job)
    requires job.WriteOp?
    ensures WritesFirst(Program(job))
  {
    var ks, tail := KeysOf(job.db, job.coll, job.writes), ReopenTail(job);
    OpenProgramInScope(job.db, job.coll, job.parts);
    FirstWrites(ks, tail);
    if job.closeDelivered {
      assert Program(job) == [FenceStep(job.db, job.coll, job.parts)] + (Writes(ks) + tail);
      assert Program(job)[1..] == Writes(ks) + tail;
    } else {
      assert Program(job) == Writes(ks) + tail;
    }
  }

  /** A partition is written, or still on the list, or an exception is on its way out. */
  ghost predicate WrittenOrListed(t: Task, k: Key) {
    WritesFirst(t.prog) && (k in t.wrote || WriteTo(k) in t.prog || t.raising)
  }

  lemma WrittenOrListedStep(m: Manager, disk: Disk, now: nat, t: Task, answer: OpenAnswer, order: seq<Key>, k: Key)
    requires t.prog != [] && t.job.WriteOp? && WrittenOrListed(t, k)
    ensures WrittenOrListed(Advance(t, m, disk, now, React(m, disk, now, t.prog[0], answer, order)), k)
  {
    var x, rest := t.prog[0], t.prog[1..];
    var o := React(m, disk, now, x, answer, order);
    var t' := Advance(t, m, disk, now, o);
    assert t.prog == [x] + rest;
    ReactQuiet(m, disk, now, x, answer, order);
    if x.WriteTo? || x.FenceStep? {
      assert o.todo == [] && [] + rest == rest;
      if NoWrites(t.prog) {
        assert NoWrites(rest);
      }
      FirstAfterWrites(rest);
    } else {
      assert NoWrites(t.prog);
      assert forall y <- o.todo :: Quiet(y);
      assert NoWrites(t'.prog);
    }
  }

  lemma {:induction false} ListedWrites(ks: seq<Key>, k: Key)
    requires k in ks
    ensures WriteTo(k) in Writes(ks)
  {
    if k != ks[0] {
      ListedWrites(ks[1..], k);
    }
  }

  lemma {:induction false} WrittenAlways(s0: Sys, es: seq<Event>, n: nat, k: Key)
    requires s0.tasks == [] && n < |Run(s0, es).tasks|
    requires var j := Run(s0, es).tasks[n].job; j.WriteOp? && k in KeysOf(j.db, j.coll, j.writes)
    ensures WrittenOrListed(Run(s0, es).tasks[n], k)
  {
    if es != [] {
      var s, e := Run(s0, es[..|es| - 1]), es[|es| - 1];
      if n >= |s.tasks| {
        assert Next(s, e).tasks[n] == NewTask(e.job, s);
        OpWritesFirst(e.job);
        ListedWrites(KeysOf(e.job.db, e.job.coll, e.job.writes), k);
        assert WriteTo(k) in Program(e.job);
      } else {
        JobsStay(s, e, n);
        WrittenAlways(s0, es[..|es| - 1], n, k);
        if HeadOf(s, e).Some? && e.t == n {
          WrittenOrListedStep(s.reader, s.disk, s.now, s.tasks[n], e.answer, e.order, k);
        }
      }
    }
  }

  /** An operation that has returned has written every partition it was to write. */
  lemma ReturnedWroteAll(s0: Sys, es: seq<Event>, n: nat)
    requires s0.tasks == [] && n < |Run(s0, es).tasks|
    requires var t := Run(s0, es).tasks[n]; t.job.WriteOp? && t.status == Returned
    ensures var t := Run(s0, es).tasks[n]; forall p <- t.job.writes :: Key(t.job.db, t.job.coll, p) in t.wrote
  {
    var t := Run(s0, es).tasks[n];
    ReturnedIsDone(s0, es, n);
    forall p | p in t.job.writes ensures Key(t.job.db, t.job.coll, p) in t.wrote {
      var i :| 0 <= i < |t.job.writes| && t.job.writes[i] == p;
      assert KeysOf(t.job.db, t.job.coll, t.job.writes)[i] == Key(t.job.db, t.job.coll, p);
      WrittenAlways(s0, es, n, Key(t.job.db, t.job.coll, p));
    }
  }

  /** Read your writes, for a caller: after an operation has returned, in every
      run, every partition it was to write has its version, and the Reader shows
      at least that version through whatever handle it has or opens next, unless
      the partition was dropped since that handle was opened. */
  lemma ReturnedIsVisible(s0: Sys, es: seq<Event>, n: nat, p: string, now: nat, answer: OpenAnswer)
    requires Initial(s0) && n < |Run(s0, es).tasks|
    requires var t := Run(s0, es).tasks[n]; t.job.WriteOp? && t.status == Returned && p in t.job.writes
    ensures var s, t := Run(s0, es), Run(s0, es).tasks[n];
            var k := Key(t.job.db, t.job.coll, p);
            var next := SecondBlock(s.reader, s.disk, now, k, false, answer);
            && k in t.wrote && t.wrote[k] >= t.start
            && (k in s.reader.handles ==>
                  s.reader.handles[k].version >= t.wrote[k] || DroppedSince(s0, es, k, s.reader.handles[k].openedAt))
            && (next.Opened? ==> next.h.version >= t.wrote[k])
  {
    var t := Run(s0, es).tasks[n];
    ReturnedWroteAll(s0, es, n);
    NoStaleHandleSurvives(s0, es, n, Key(t.job.db, t.job.coll, p), now, answer);
    WroteSinceStart(s0, es, n);
  }

  lemma {:induction false} WroteSinceStart(s0: Sys, es: seq<Event>, n: nat)
    requires Initial(s0) && n < |Run(s0, es).tasks|
    ensures var s := Run(s0, es); s.tasks[n].start < s.now && forall k <- s.tasks[n].wrote :: s.tasks[n].wrote[k] >= s.tasks[n].start
  {
    if es != [] {
      var s, e := Run(s0, es[..|es| - 1]), es[|es| - 1];
      if n < |s.tasks| {
        JobsStay(s, e, n);
        WroteSinceStart(s0, es[..|es| - 1], n);
      }
    }
  }

  // ---------- an operation that is refused ----------

  lemma CoveredItself(m: Manager, disk: Disk, now: nat, t: Task, answer: OpenAnswer, order: seq<Key>)
    requires t.prog != [] && Covered(t.prog, t.held)
    ensures var t' := Advance(t, m, disk, now, React(m, disk, now, t.prog[0], answer, order)); Covered(t'.prog, t'.held)
  {
    var o := React(m, disk, now, t.prog[0], answer, order);
    var t' := Advance(t, m, disk, now, o);
    ReactQuiet(m, disk, now, t.prog[0], answer, order);
    if o.abort {
      CoveredAfterWrites(t.prog[1..], t'.held);
    } else {
      CoveredQuiet(o.todo, t.prog[1..], t'.held);
    }
  }

  lemma {:induction false} CoveredAlways(s0: Sys, es: seq<Event>, n: nat)
    requires s0.tasks == [] && n < |Run(s0, es).tasks| && WellFormedOp(Run(s0, es).tasks[n].job)
    ensures Covered(Run(s0, es).tasks[n].prog, Run(s0, es).tasks[n].held)
  {
    if es != [] {
      var s, e := Run(s0, es[..|es| - 1]), es[|es| - 1];
      if n >= |s.tasks| {
        assert Next(s, e).tasks[n] == NewTask(e.job, s);
        ProgramCovered(e.job);
      } else {
        JobsStay(s, e, n);
        CoveredAlways(s0, es[..|es| - 1], n);
        if HeadOf(s, e).Some? && e.t == n {
          CoveredItself(s.reader, s.disk, s.now, s.tasks[n], e.answer, e.order);
        }
      }
    }
  }

  /** Event j is the n-th task's, and fences `k` by name. */
  ghost predicate FencesItself(s0: Sys, es: seq<Event>, n: nat, k: Key, j: nat)
    requires j < |es|
  {
    FencesNamed(Run(s0, es[..j]), es[j], k) && es[j].t == n
  }

  /** Event j is the n-th task's, and lifts fences. */
  ghost predicate UnfencesItself(s0: Sys, es: seq<Event>, n: nat, j: nat)
    requires j < |es|
  {
    var h := HeadOf(Run(s0, es[..j]), es[j]);
    h.Some? && h.value.UnfenceStep? && es[j].t == n
  }

  /** What a task holds it has fenced, and has not unfenced since. */
  lemma {:induction false} HeldSince(s0: Sys, es: seq<Event>, n: nat, k: Key) returns (i: nat)
    requires s0.tasks == [] && n < |Run(s0, es).tasks| && k in Run(s0, es).tasks[n].held
    ensures i < |es| && FencesItself(s0, es, n, k, i)
    ensures forall j | i < j < |es| :: !UnfencesItself(s0, es, n, j)
  {
    hide Next, UnfencesItself, FencesItself, Run;
    var l := |es| - 1;
    HeldStep(s0, es, n, k);
    if FencesItself(s0, es, n, k, l) {
      i := l;
    } else {
      i := HeldSince(s0, es[..l], n, k);
      SamePrefix(s0, es, n, k, i);
      forall j | i < j < |es| ensures !UnfencesItself(s0, es, n, j) {
        if j < l {
          SamePrefix(s0, es, n, k, j);
        }
      }
    }
  }

  lemma HeldStep(s0: Sys, es: seq<Event>, n: nat, k: Key)
    requires s0.tasks == [] && n < |Run(s0, es).tasks| && k in Run(s0, es).tasks[n].held
    ensures es != []
    ensures var l := |es| - 1;
            FencesItself(s0, es, n, k, l)
            || (!UnfencesItself(s0, es, n, l) && n < |Run(s0, es[..l]).tasks| && k in Run(s0, es[..l]).tasks[n].held)
  {
  }

  lemma SamePrefix(s0: Sys, es: seq<Event>, n: nat, k: Key, j: nat)
    requires es != [] && j < |es| - 1
    ensures FencesItself(s0, es[..|es| - 1], n, k, j) == FencesItself(s0, es, n, k, j)
    ensures UnfencesItself(s0, es[..|es| - 1], n, j) == UnfencesItself(s0, es, n, j)
  {
    assert es[..|es| - 1][..j] == es[..j];
  }

  /** When the close notice of an operation was delivered, and yet a write of it
      is refused although the partition exists and the engine itself works, then
      another task has lifted the operation's fence since: fences are not counted. */
  lemma RefusedMeansLifted(s0: Sys, es: seq<Event>, e: Event, k: Key) returns (i: nat, j: nat)
    requires Initial(s0) && HeadOf(Run(s0, es), e) == Some(WriteTo(k)) && WellFormedOp(Run(s0, es).tasks[e.t].job)
    requires var s := Run(s0, es); k in s.disk && e.answer.OpenOk? && !CanWrite(s.reader, s.disk, k, e.answer)
    ensures i < j < |es| && FencesItself(s0, es, e.t, k, i)
    ensures LiftsNamed(Run(s0, es[..j]), es[j], k) && es[j].t != e.t
  {
    CoveredAlways(s0, es, e.t);
    i := HeldSince(s0, es, e.t, k);
    RefusedOnlyUnfenced(s0, es, e, k);
    if forall m | i < m < |es| :: !LiftsNamed(Run(s0, es[..m]), es[m], k) {
      assert es[..|es|] == es;
      NamedFenceWindow(s0, es, i, |es|, k);
    }
    j :| i < j < |es| && LiftsNamed(Run(s0, es[..j]), es[j], k);
    assert !UnfencesItself(s0, es, e.t, j);
  }
}
