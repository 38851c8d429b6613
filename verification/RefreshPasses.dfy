/** One pass of the Reader's refresh loop bounds how stale its cache can be. */
module RefreshPasses {
  import opened Wrappers
  import opened Partitions
  import opened Protocol
  import opened FenceWindow
  import opened Freshness

  predicate VisitsPart(visits: seq<Visit>, k: Key) {
    exists v <- visits :: v.Loaded? && InCollection(k, v.db, v.coll) && k.part in v.parts
  }

  predicate VisitsUnloaded(visits: seq<Visit>, db: string, coll: string) {
    NotLoaded(db, coll) in visits
  }

  // ---------- what the pass has dealt with, or still will ----------

  ghost predicate DealtOrListed(t: Task, k: Key) {
    k in t.popped || k in t.skipped || CloseOne(k) in t.prog || VisitPart(k) in t.prog
  }

  ghost predicate ClearedOrListed(t: Task, db: string, coll: string) {
    (db, coll) in t.poppedColls || CloseAll(db, coll) in t.prog
  }

  lemma VisitsListed(ks: seq<Key>, k: Key)
    requires k in ks
    ensures VisitPart(k) in Visits(ks)
  {
  }

  lemma {:induction false} PassListsPart(visits: seq<Visit>, k: Key)
    requires VisitsPart(visits, k)
    ensures VisitPart(k) in PassProgram(visits)
  {
    var v := visits[0];
    if v.Loaded? && InCollection(k, v.db, v.coll) && k.part in v.parts {
      var i :| 0 <= i < |v.parts| && v.parts[i] == k.part;
      assert KeysOf(v.db, v.coll, v.parts)[i] == k;
      VisitsListed(KeysOf(v.db, v.coll, v.parts), k);
    } else {
      PassListsPart(visits[1..], k);
    }
  }

  lemma {:induction false} PassListsUnloaded(visits: seq<Visit>, db: string, coll: string)
    requires VisitsUnloaded(visits, db, coll)
    ensures CloseAll(db, coll) in PassProgram(visits)
  {
    if visits[0] != NotLoaded(db, coll) {
      PassListsUnloaded(visits[1..], db, coll);
    }
  }

  lemma DealtStep(m: Manager, disk: Disk, now: nat, t: Task, answer: OpenAnswer, order: seq<Key>, k: Key)
    requires t.prog != [] && DealtOrListed(t, k) && NeverFatal(t.prog)
    requires !React(m, disk, now, t.prog[0], answer, order).abort
    ensures var t' := Advance(t, m, disk, now, React(m, disk, now, t.prog[0], answer, order));
            DealtOrListed(t', k)
  {
    var x := t.prog[0];
    var o := React(m, disk, now, x, answer, order);
    var t' := Advance(t, m, disk, now, o);
    assert t.prog == [x] + t.prog[1..];
    ReactNeverFatal(m, disk, now, x, answer, order);
    if x == VisitPart(k) && !IsFenced(m, k) {
      assert o.todo[0] == CloseOne(k);
      assert CloseOne(k) in t'.prog;
    }
  }

  lemma ClearedStep(m: Manager, disk: Disk, now: nat, t: Task, answer: OpenAnswer, order: seq<Key>,
                    db: string, coll: string)
    requires t.prog != [] && ClearedOrListed(t, db, coll) && NeverFatal(t.prog)
    requires !React(m, disk, now, t.prog[0], answer, order).abort
    ensures var t' := Advance(t, m, disk, now, React(m, disk, now, t.prog[0], answer, order));
            ClearedOrListed(t', db, coll)
  {
    var x := t.prog[0];
    var o := React(m, disk, now, x, answer, order);
    assert t.prog == [x] + t.prog[1..];
    ReactNeverFatal(m, disk, now, x, answer, order);
  }

  predicate IsFatal(x: Instr) {
    x.WriteTo? || ((x.Reopen? || x.OpenFirst? || x.OpenSecond?) && x.fatal)
  }

  ghost predicate NeverFatal(prog: seq<Instr>) {
    forall x <- prog :: !IsFatal(x)
  }

  lemma ListsNeverFatal(ks: seq<Key>)
    ensures NeverFatal(Closes(ks)) && NeverFatal(UnfencedReopens(ks)) && NeverFatal(Visits(ks))
  {
  }

  lemma PassNeverFatal(visits: seq<Visit>)
    ensures NeverFatal(PassProgram(visits))
  {
    if visits != [] {
      PassNeverFatal(visits[1..]);
      if visits[0].Loaded? {
        ListsNeverFatal(KeysOf(visits[0].db, visits[0].coll, visits[0].parts));
      }
    }
  }

  lemma ReactNeverFatal(m: Manager, disk: Disk, now: nat, x: Instr, answer: OpenAnswer, order: seq<Key>)
    requires !IsFatal(x)
    ensures var o := React(m, disk, now, x, answer, order);
            NeverFatal(o.todo) && (o.abort <==> x == ReadCatalog && !answer.OpenOk?)
  {
    ListsNeverFatal(order);
  }

  /** Partitions the pass found fenced had no handle at that moment, or are on
      record as missed. */
  ghost predicate SkippedYoung(m: Manager, t: Task) {
    forall k <- t.skipped :: k in t.missed || Young(m, k, t.start)
  }

  lemma SkippedStep(m: Manager, disk: Disk, now: nat, t: Task, answer: OpenAnswer, order: seq<Key>)
    requires t.prog != [] && m.readOnly && t.start < now && SkippedYoung(m, t)
    ensures var o := React(m, disk, now, t.prog[0], answer, order);
            SkippedYoung(o.reader, Advance(t, m, disk, now, o))
  {
    ReactFrame(m, disk, now, t.prog[0], answer, order);
  }

  ghost predicate PassState(m: Manager, t: Task) {
    && t.job.RefreshPass?
    && NeverFatal(t.prog) && SkippedYoung(m, t)
    && (!t.raising ==> forall k :: VisitsPart(t.job.visits, k) ==> DealtOrListed(t, k))
    && (!t.raising ==> forall db, coll :: VisitsUnloaded(t.job.visits, db, coll) ==> ClearedOrListed(t, db, coll))
  }

  lemma PassStateItself(m: Manager, disk: Disk, now: nat, t: Task, answer: OpenAnswer, order: seq<Key>)
    requires t.prog != [] && m.readOnly && t.start < now && PassState(m, t)
    ensures var o := React(m, disk, now, t.prog[0], answer, order);
            PassState(o.reader, Advance(t, m, disk, now, o))
  {
    var o := React(m, disk, now, t.prog[0], answer, order);
    var t' := Advance(t, m, disk, now, o);
    ReactNeverFatal(m, disk, now, t.prog[0], answer, order);
    SkippedStep(m, disk, now, t, answer, order);
    if !t'.raising {
      forall k | VisitsPart(t.job.visits, k) ensures DealtOrListed(t', k) {
        DealtStep(m, disk, now, t, answer, order, k);
      }
      forall db, coll | VisitsUnloaded(t.job.visits, db, coll) ensures ClearedOrListed(t', db, coll) {
        ClearedStep(m, disk, now, t, answer, order, db, coll);
      }
    }
  }

  lemma PassStateNew(job: Job, s: Sys)
    requires job.RefreshPass?
    ensures PassState(s.reader, NewTask(job, s))
  {
    var t := NewTask(job, s);
    PassNeverFatal(job.visits);
    forall k | VisitsPart(job.visits, k) ensures DealtOrListed(t, k) {
      PassListsPart(job.visits, k);
    }
    forall db, coll | VisitsUnloaded(job.visits, db, coll) ensures ClearedOrListed(t, db, coll) {
      PassListsUnloaded(job.visits, db, coll);
    }
  }

  lemma {:induction false} PassStateAlways(s0: Sys, es: seq<Event>, n: nat)
    requires Initial(s0)
    requires n < |Run(s0, es).tasks| && Run(s0, es).tasks[n].job.RefreshPass?
    ensures PassState(Run(s0, es).reader, Run(s0, es).tasks[n])
  {
    if es != [] {
      var s, e := Run(s0, es[..|es| - 1]), es[|es| - 1];
      if n >= |s.tasks| {
        assert Next(s, e).tasks[n] == NewTask(e.job, s);
        PassStateNew(e.job, s);
        assert Next(s, e).reader == s.reader;
      } else {
        JobsStay(s, e, n);
        PassStateAlways(s0, es[..|es| - 1], n);
        SeenAlways(s0, es[..|es| - 1], n);
        PassStateEvent(s, e, n);
      }
    }
  }

  lemma PassStateEvent(s: Sys, e: Event, n: nat)
    requires Clocked(s) && n < |s.tasks|
    requires s.tasks[n].start < s.now && PassState(s.reader, s.tasks[n])
    ensures n < |Next(s, e).tasks| && PassState(Next(s, e).reader, Next(s, e).tasks[n])
  {
    if HeadOf(s, e).Some? && e.t == n {
      PassStateItself(s.reader, s.disk, s.now, s.tasks[n], e.answer, e.order);
    } else {
      EventFrame(s, e);
      assert SkippedYoung(Next(s, e).reader, s.tasks[n]);
    }
  }

  // ---------- what the loop misses ----------

  /** The loop misses a partition only under a collection-wide fence that was
      spelled as a partition name. */
  lemma {:induction false} MissedNeedsStar(s0: Sys, es: seq<Event>, n: nat)
    requires Initial(s0) && n < |Run(s0, es).tasks| && StarFreeJobs(Run(s0, es))
    ensures Run(s0, es).tasks[n].missed == {}
  {
    if es != [] {
      var s, e := Run(s0, es[..|es| - 1]), es[|es| - 1];
      StarFreeBefore(s, e);
      if n < |s.tasks| {
        MissedNeedsStar(s0, es[..|es| - 1], n);
        ExclusionAlways(s0, es[..|es| - 1]);
        MissedStep(s, e, n);
      }
    }
  }

  lemma MissedStep(s: Sys, e: Event, n: nat)
    requires n < |s.tasks| && s.tasks[n].missed == {} && Exclusion(s.reader)
    ensures n < |Next(s, e).tasks| && Next(s, e).tasks[n].missed == {}
  {
  }

  // ---------- what ends a pass early ----------

  /** In event j the pass fails to read the catalog. */
  ghost predicate FailsToRead(s0: Sys, es: seq<Event>, n: nat, j: nat)
    requires j < |es|
  {
    HeadOf(Run(s0, es[..j]), es[j]) == Some(ReadCatalog) && es[j].t == n && !es[j].answer.OpenOk?
  }

  /** No partition's failure ends a pass: one that raises has failed to read the catalog. */
  lemma {:induction false} RaisedOnRead(s0: Sys, es: seq<Event>, n: nat) returns (j: nat)
    requires Initial(s0) && n < |Run(s0, es).tasks|
    requires Run(s0, es).tasks[n].job.RefreshPass? && Run(s0, es).tasks[n].raising
    ensures j < |es| && FailsToRead(s0, es, n, j)
  {
    var l := |es| - 1;
    var s, e := Run(s0, es[..l]), es[l];
    if n < |s.tasks| {
      JobsStay(s, e, n);
      if s.tasks[n].raising {
        j := RaisedOnRead(s0, es[..l], n);
        assert es[..l][..j] == es[..j];
      } else {
        PassStateAlways(s0, es[..l], n);
        assert s.tasks[n].prog[0] in s.tasks[n].prog;
        ReactNeverFatal(s.reader, s.disk, s.now, s.tasks[n].prog[0], e.answer, e.order);
        j := l;
      }
    }
  }

  /** Once a refresh pass has run to its end, then and ever after, a handle on a
      partition it visited was opened during the pass or later, unless the loop
      found the partition fenced and yet with a handle; and any handle of a
      collection it visited as not loaded was opened during the pass or later.
      At any moment before, and when the catalog could not be read, the same
      holds for what the pass has closed so far. */
  lemma CompletedPassBoundsStaleness(s0: Sys, es: seq<Event>, i: nat)
    requires Initial(s0) && i < |es| && es[i].Start? && es[i].job.RefreshPass?
    ensures var b, s, visits := Run(s0, es[..i]), Run(s0, es), es[i].job.visits;
            && |b.tasks| < |s.tasks|
            && var t := s.tasks[|b.tasks|];
            && (t.status == Raised ==> exists j: nat :: j < |es| && FailsToRead(s0, es, |b.tasks|, j))
            && (StarFreeJobs(s) ==> t.missed == {})
            && (forall k <- s.reader.handles ::
                  k in t.popped || (k.db, k.coll) in t.poppedColls ==> s.reader.handles[k].openedAt >= b.now)
            && (t.status == Returned ==>
                  && (forall k <- s.reader.handles :: VisitsPart(visits, k) ==> s.reader.handles[k].openedAt >= b.now || k in t.missed)
                  && (forall k <- s.reader.handles ::
                        VisitsUnloaded(visits, k.db, k.coll) ==> s.reader.handles[k].openedAt >= b.now))
  {
    StartRecorded(s0, es, i);
    var n, s := |Run(s0, es[..i]).tasks|, Run(s0, es);
    var t := s.tasks[n];
    PassStateAlways(s0, es, n);
    SeenAlways(s0, es, n);
    ReturnedIsDone(s0, es, n);
    if StarFreeJobs(s) {
      MissedNeedsStar(s0, es, n);
    }
    if t.status == Raised {
      var _ := RaisedOnRead(s0, es, n);
    }
    forall k | k in s.reader.handles && (k.db, k.coll) in t.poppedColls ensures Young(s.reader, k, t.start) {
      assert InCollection(k, k.db, k.coll);
    }
    if t.status == Returned {
      forall k | k in s.reader.handles && VisitsPart(t.job.visits, k) ensures Young(s.reader, k, t.start) || k in t.missed {
        assert DealtOrListed(t, k);
      }
      forall k | k in s.reader.handles && VisitsUnloaded(t.job.visits, k.db, k.coll) ensures Young(s.reader, k, t.start) {
        assert ClearedOrListed(t, k.db, k.coll);
      }
    }
  }
}
