/** What the handlers of the Reader have done once they have answered, in every
    run: each of their turns really came, whatever else ran in between. */
module Notices {
  import opened Wrappers
  import opened Partitions
  import opened Protocol
  import opened FenceWindow
  import opened Freshness
  import opened RefreshPasses

  /** Event j is a turn of task n. */
  ghost predicate Turn(s0: Sys, es: seq<Event>, n: nat, j: int) {
    0 <= j < |es| && HeadOf(Run(s0, es[..j]), es[j]).Some? && es[j].t == n
  }

  /** Event j is the turn of task n that does `x`. */
  ghost predicate Does(s0: Sys, es: seq<Event>, n: nat, x: Instr, j: int) {
    Turn(s0, es, n, j) && HeadOf(Run(s0, es[..j]), es[j]) == Some(x)
  }

  lemma DoesEarlier(s0: Sys, es: seq<Event>, n: nat, x: Instr, j: int)
    requires es != [] && Does(s0, es[..|es| - 1], n, x, j)
    ensures Does(s0, es, n, x, j)
  {
    assert es[..|es| - 1][..j] == es[..j];
  }

  /** What a task that raises nothing has on its list is done, or still listed. */
  lemma {:induction false} DoneOrListed(s0: Sys, es: seq<Event>, n: nat, i: nat, x: Instr)
    requires i <= |es| && n < |Run(s0, es[..i]).tasks| && x in Run(s0, es[..i]).tasks[n].prog
    requires !Run(s0, es[..i]).tasks[n].job.WriteOp?
    ensures n < |Run(s0, es).tasks| && !Run(s0, es).tasks[n].job.WriteOp?
    ensures var t := Run(s0, es).tasks[n]; x in t.prog || t.raising || exists j :: i <= j && Does(s0, es, n, x, j)
  {
    hide Next;
    if i == |es| {
      assert es[..i] == es;
    } else {
      var l := |es| - 1;
      var s := Run(s0, es[..l]);
      assert es[..l][..i] == es[..i];
      DoneOrListed(s0, es[..l], n, i, x);
      JobsStay(s, es[l], n);
      if j :| i <= j && Does(s0, es[..l], n, x, j) {
        DoesEarlier(s0, es, n, x, j);
      } else if HeadOf(s, es[l]) == Some(x) && es[l].t == n {
        assert Does(s0, es, n, x, l);
      } else {
        ListedStays(s, es[l], n, x);
      }
    }
  }

  lemma ListedStays(s: Sys, e: Event, n: nat, x: Instr)
    requires n < |s.tasks| && !s.tasks[n].job.WriteOp? && (x in s.tasks[n].prog || s.tasks[n].raising)
    requires !(HeadOf(s, e) == Some(x) && e.t == n)
    ensures var t := Next(s, e).tasks[n]; x in t.prog || t.raising
  {
    hide React;
    if HeadOf(s, e).Some? && e.t == n {
      var t := s.tasks[n];
      var o := React(s.reader, s.disk, s.now, t.prog[0], e.answer, e.order);
      assert t.prog == [t.prog[0]] + t.prog[1..];
      assert Next(s, e).tasks[n] == Advance(t, s.reader, s.disk, s.now, o);
    }
  }

  /** So when it has returned, each was done. */
  lemma ReturnedDid(s0: Sys, es: seq<Event>, n: nat, i: nat, x: Instr)
    requires s0.tasks == [] && i <= |es| && n < |Run(s0, es[..i]).tasks| && x in Run(s0, es[..i]).tasks[n].prog
    requires !Run(s0, es[..i]).tasks[n].job.WriteOp?
    requires n < |Run(s0, es).tasks| && Run(s0, es).tasks[n].status == Returned
    ensures exists j :: i <= j && Does(s0, es, n, x, j)
  {
    DoneOrListed(s0, es, n, i, x);
    ReturnedIsDone(s0, es, n);
  }

  lemma Began(s0: Sys, es: seq<Event>, i: nat)
    requires i < |es| && es[i].Start?
    ensures var n := |Run(s0, es[..i]).tasks|;
            && n < |Run(s0, es[..i + 1]).tasks| && n < |Run(s0, es).tasks| && Run(s0, es).tasks[n].job == es[i].job
            && Run(s0, es[..i + 1]).tasks[n] == NewTask(es[i].job, Run(s0, es[..i]))
  {
    StartRecorded(s0, es, i);
    RunPrefix(s0, es, i);
    StartAdds(Run(s0, es[..i]), es[i].job);
  }

  // ---------- close and unfence ----------

  /** What a close notice is about. */
  predicate Covers(db: string, coll: string, parts: seq<string>, k: Key) {
    k.db == db && k.coll == coll && (parts == [] || k.part in parts)
  }

  /** In event j the task closes `k`. */
  ghost predicate ClosesAt(s0: Sys, es: seq<Event>, n: nat, k: Key, j: int) {
    Turn(s0, es, n, j) && k !in Run(s0, es[..j + 1]).reader.handles
  }

  /** A close notice that has been answered has closed every partition it is about,
      and with a fence has fenced it in the same step. */
  lemma CloseNoticeCloses(s0: Sys, es: seq<Event>, i: nat, db: string, coll: string, parts: seq<string>, fence: bool, k: Key)
    requires s0.tasks == [] && i < |es| && es[i] == Start(CloseNotice(db, coll, parts, fence)) && Covers(db, coll, parts, k)
    ensures var n := |Run(s0, es[..i]).tasks|;
            n < |Run(s0, es).tasks| && (Run(s0, es).tasks[n].status == Returned ==>
              exists j :: i < j && ClosesAt(s0, es, n, k, j) && (fence ==> IsFenced(Run(s0, es[..j + 1]).reader, k)))
  {
    var n := |Run(s0, es[..i]).tasks|;
    Began(s0, es, i);
    if Run(s0, es).tasks[n].status == Returned {
      var x := CloseInstr(db, coll, parts, fence, k);
      ReturnedDid(s0, es, n, i + 1, x);
      var j :| i + 1 <= j && Does(s0, es, n, x, j);
      RunPrefix(s0, es, j);
      CloseInstrCloses(Run(s0, es[..j]), es[j], x, k, fence);
      assert ClosesAt(s0, es, n, k, j);
    }
  }

  lemma CloseInstr(db: string, coll: string, parts: seq<string>, fence: bool, k: Key) returns (x: Instr)
    requires Covers(db, coll, parts, k)
    ensures x in Program(CloseNotice(db, coll, parts, fence))
    ensures if fence then x == FenceStep(db, coll, parts) else x == CloseOne(k) || x == CloseAll(db, coll)
  {
    if fence {
      x := FenceStep(db, coll, parts);
    } else if parts == [] {
      x := CloseAll(db, coll);
    } else {
      x := CloseOne(k);
      var q :| 0 <= q < |parts| && parts[q] == k.part;
      assert KeysOf(db, coll, parts)[q] == k;
      ClosesListed(KeysOf(db, coll, parts), k);
    }
  }

  lemma {:induction false} ClosesListed(ks: seq<Key>, k: Key)
    requires k in ks
    ensures CloseOne(k) in Closes(ks)
  {
    if ks[0] != k {
      ClosesListed(ks[1..], k);
    }
  }

  lemma CloseInstrCloses(s: Sys, e: Event, x: Instr, k: Key, fence: bool)
    requires HeadOf(s, e) == Some(x)
    requires x == CloseOne(k) || x == CloseAll(k.db, k.coll)
             || (x.FenceStep? && Covers(x.db, x.coll, x.parts, k))
    requires fence ==> x.FenceStep?
    ensures var s' := Next(s, e); k !in s'.reader.handles && (fence ==> IsFenced(s'.reader, k))
  {
  }

  /** In event j the task lifts every fence on `k`. */
  ghost predicate LiftsAt(s0: Sys, es: seq<Event>, n: nat, k: Key, j: int) {
    Turn(s0, es, n, j) && !IsFenced(Run(s0, es[..j + 1]).reader, k)
  }

  /** An unfence notice, or one to open, has lifted the fences of what it names. */
  lemma NoticeLifts(s0: Sys, es: seq<Event>, i: nat, db: string, coll: string, parts: seq<string>, job: Job, k: Key)
    requires s0.tasks == [] && i < |es| && es[i] == Start(job)
    requires (job == UnfenceNotice(db, coll, parts) && Covers(db, coll, parts, k))
             || (job == OpenNotice(db, coll, parts) && k.part in OrDefault(parts) && InCollection(k, db, coll))
    ensures var n := |Run(s0, es[..i]).tasks|;
            n < |Run(s0, es).tasks| && (Run(s0, es).tasks[n].status == Returned ==> exists j :: i < j && LiftsAt(s0, es, n, k, j))
  {
    var n := |Run(s0, es[..i]).tasks|;
    Began(s0, es, i);
    if Run(s0, es).tasks[n].status == Returned {
      var x := UnfenceStep(db, coll, if job.OpenNotice? then OrDefault(parts) else parts);
      assert x == Program(job)[0];
      ReturnedDid(s0, es, n, i + 1, x);
      var j :| i + 1 <= j && Does(s0, es, n, x, j);
      RunPrefix(s0, es, j);
      UnfenceLifts(Run(s0, es[..j]), es[j], x, k);
      assert LiftsAt(s0, es, n, k, j);
    }
  }

  lemma UnfenceLifts(s: Sys, e: Event, x: Instr, k: Key)
    requires HeadOf(s, e) == Some(x) && x.UnfenceStep? && Covers(x.db, x.coll, x.parts, k)
    ensures !IsFenced(Next(s, e).reader, k)
  {
  }

  // ---------- open ----------

  /** In event j the task has found a log file on `k`, or has it open. */
  ghost predicate OpensAt(s0: Sys, es: seq<Event>, n: nat, k: Key, j: int) {
    Turn(s0, es, n, j) && (HasWal(Run(s0, es[..j]).disk, k) || k in Run(s0, es[..j + 1]).reader.handles)
  }

  /** A notice to open that returns has opened every partition it names, or found
      a log file in it; anything else makes it raise. */
  lemma OpenNoticeOpens(s0: Sys, es: seq<Event>, i: nat, db: string, coll: string, parts: seq<string>, k: Key)
    requires s0.tasks == [] && i < |es| && es[i] == Start(OpenNotice(db, coll, parts))
    requires k.part in OrDefault(parts) && InCollection(k, db, coll)
    ensures var n := |Run(s0, es[..i]).tasks|;
            n < |Run(s0, es).tasks| && (Run(s0, es).tasks[n].status == Returned ==> exists j :: i < j && OpensAt(s0, es, n, k, j))
  {
    var n := |Run(s0, es[..i]).tasks|;
    Began(s0, es, i);
    if Run(s0, es).tasks[n].status == Returned {
      hide Next, React, Run, Program;
      OpenListed(db, coll, parts, k);
      ReturnedDid(s0, es, n, i + 1, Reopen(k, true));
      var j :| i + 1 <= j && Does(s0, es, n, Reopen(k, true), j);
      ReopenLeads(s0, es, n, k, j);
    }
  }

  lemma OpenListed(db: string, coll: string, parts: seq<string>, k: Key)
    requires k.part in OrDefault(parts) && InCollection(k, db, coll)
    ensures Reopen(k, true) in Program(OpenNotice(db, coll, parts))
  {
    var ks := KeysOf(db, coll, OrDefault(parts));
    var q :| 0 <= q < |ks| && OrDefault(parts)[q] == k.part;
    assert ks[q] == k;
    ReopensListed(ks, k, true);
  }

  lemma {:induction false} ReopensListed(ks: seq<Key>, k: Key, fatal: bool)
    requires k in ks
    ensures Reopen(k, fatal) in Reopens(ks, fatal)
  {
    if ks[0] != k {
      ReopensListed(ks[1..], k, fatal);
    }
  }

  /** The turns that follow a reopening whose failure would raise. */
  lemma ReopenLeads(s0: Sys, es: seq<Event>, n: nat, k: Key, j: nat)
    requires s0.tasks == [] && n < |Run(s0, es).tasks| && Run(s0, es).tasks[n].status == Returned
    requires Does(s0, es, n, Reopen(k, true), j) && !Run(s0, es).tasks[n].job.WriteOp?
    ensures exists h :: j <= h && OpensAt(s0, es, n, k, h)
  {
    hide Next, React, Run, HasWal;
    if HasWal(Run(s0, es[..j]).disk, k) {
      assert OpensAt(s0, es, n, k, j);
    } else {
      var first := OpenFirst(k, true, true, false);
      ReopenTurn(Run(s0, es[..j]), es[j], k);
      var h := NextTurn(s0, es, n, Reopen(k, true), first, j);
      NotRaised(s0, es, n, first, h);
      FirstTurn(Run(s0, es[..h]), es[h], k);
      var g := NextTurn(s0, es, n, first, OpenSecond(k, true, false), h);
      NotRaised(s0, es, n, OpenSecond(k, true, false), g);
      RunPrefix(s0, es, g);
      SecondOpens(Run(s0, es[..g]), es[g], k);
      assert OpensAt(s0, es, n, k, g);
    }
  }

  lemma ReopenTurn(s: Sys, e: Event, k: Key)
    requires HeadOf(s, e) == Some(Reopen(k, true)) && !HasWal(s.disk, k)
    ensures OpenFirst(k, true, true, false) in Next(s, e).tasks[e.t].prog
  {
    assert Next(s, e).tasks[e.t].prog[0] == OpenFirst(k, true, true, false);
  }

  lemma FirstTurn(s: Sys, e: Event, k: Key)
    requires HeadOf(s, e) == Some(OpenFirst(k, true, true, false))
    requires !React(s.reader, s.disk, s.now, OpenFirst(k, true, true, false), e.answer, e.order).abort
    ensures OpenSecond(k, true, false) in Next(s, e).tasks[e.t].prog
  {
    assert Next(s, e).tasks[e.t].prog[0] == OpenSecond(k, true, false);
  }

  /** What a turn puts on the list has its turn too. */
  lemma NextTurn(s0: Sys, es: seq<Event>, n: nat, x: Instr, y: Instr, j: nat) returns (h: nat)
    requires s0.tasks == [] && n < |Run(s0, es).tasks| && Run(s0, es).tasks[n].status == Returned
    requires Does(s0, es, n, x, j) && !Run(s0, es).tasks[n].job.WriteOp?
    requires var s := Run(s0, es[..j]); y in Next(s, es[j]).tasks[n].prog
    ensures j < h && Does(s0, es, n, y, h)
  {
    RunPrefix(s0, es, j);
    RunSplit(s0, es, j + 1);
    TaskKept(Run(s0, es[..j + 1]), es[j + 1..], n);
    ReturnedDid(s0, es, n, j + 1, y);
    h :| j + 1 <= h && Does(s0, es, n, y, h);
  }

  /** A task that returns has raised at no turn. */
  lemma NotRaised(s0: Sys, es: seq<Event>, n: nat, x: Instr, j: nat)
    requires s0.tasks == [] && n < |Run(s0, es).tasks| && Run(s0, es).tasks[n].status == Returned
    requires Does(s0, es, n, x, j) && !Run(s0, es).tasks[n].job.WriteOp?
    ensures var s := Run(s0, es[..j]); !React(s.reader, s.disk, s.now, x, es[j].answer, es[j].order).abort
  {
    hide React;
    RunPrefix(s0, es, j);
    RunSplit(s0, es, j + 1);
    TaskKept(Run(s0, es[..j + 1]), es[j + 1..], n);
    JobsStay(Run(s0, es[..j]), es[j], n);
    if Run(s0, es[..j + 1]).tasks[n].raising {
      StaysRaising(Run(s0, es[..j + 1]), es[j + 1..], n);
      ReturnedIsDone(s0, es, n);
    }
  }

  lemma {:induction false} StaysRaising(s: Sys, es: seq<Event>, n: nat)
    requires n < |s.tasks| && s.tasks[n].raising
    ensures n < |Run(s, es).tasks| && Run(s, es).tasks[n].raising
  {
    hide React;
    if es != [] {
      StaysRaising(s, es[..|es| - 1], n);
    }
  }

  lemma SecondOpens(s: Sys, e: Event, k: Key)
    requires HeadOf(s, e) == Some(OpenSecond(k, true, false))
    requires !React(s.reader, s.disk, s.now, OpenSecond(k, true, false), e.answer, e.order).abort
    ensures k in Next(s, e).reader.handles
  {
  }

  // ---------- operations ----------

  /** `x` comes next but for a fence and writes: no exception can remove it. */
  ghost predicate Sure(prog: seq<Instr>, x: Instr, p: int) {
    0 <= p < |prog| && prog[p] == x && forall h | 0 <= h < p :: prog[h].FenceStep? || prog[h].WriteTo?
  }

  lemma {:induction false} SureAfterWrites(prog: seq<Instr>, x: Instr, p: int)
    requires Sure(prog, x, p) && !x.WriteTo?
    ensures exists q :: Sure(AfterWrites(prog), x, q)
  {
    if prog[0].WriteTo? {
      assert Sure(prog[1..], x, p - 1);
      SureAfterWrites(prog[1..], x, p - 1);
      var q :| Sure(AfterWrites(prog[1..]), x, q);
      assert Sure(AfterWrites(prog), x, q);
    } else {
      assert Sure(AfterWrites(prog), x, p);
    }
  }

  lemma SureStays(s: Sys, e: Event, n: nat, x: Instr, p: int)
    requires n < |s.tasks| && Sure(s.tasks[n].prog, x, p) && !x.WriteTo?
    requires !(HeadOf(s, e) == Some(x) && e.t == n)
    ensures exists q :: Sure(Next(s, e).tasks[n].prog, x, q)
  {
    if HeadOf(s, e).Some? && e.t == n {
      var prog := s.tasks[n].prog;
      assert Sure(prog[1..], x, p - 1);
      SureAfterWrites(prog[1..], x, p - 1);
      var rest := Next(s, e).tasks[n].prog;
      assert [] + prog[1..] == prog[1..];
      assert rest == prog[1..] || rest == AfterWrites(prog[1..]);
      if rest == prog[1..] {
        assert Sure(rest, x, p - 1);
      }
    } else {
      assert Sure(Next(s, e).tasks[n].prog, x, p);
    }
  }

  lemma {:induction false} DoneOrSure(s0: Sys, es: seq<Event>, n: nat, i: nat, x: Instr, p: int)
    requires i <= |es| && n < |Run(s0, es[..i]).tasks| && Sure(Run(s0, es[..i]).tasks[n].prog, x, p) && !x.WriteTo?
    ensures n < |Run(s0, es).tasks|
    ensures (exists q :: Sure(Run(s0, es).tasks[n].prog, x, q)) || exists j :: i <= j && Does(s0, es, n, x, j)
  {
    hide Next, Sure;
    if i == |es| {
      assert es[..i] == es;
    } else {
      var l := |es| - 1;
      var s := Run(s0, es[..l]);
      assert es[..l][..i] == es[..i];
      DoneOrSure(s0, es[..l], n, i, x, p);
      JobsStay(s, es[l], n);
      if j :| i <= j && Does(s0, es[..l], n, x, j) {
        DoesEarlier(s0, es, n, x, j);
      } else if HeadOf(s, es[l]) == Some(x) && es[l].t == n {
        assert Does(s0, es, n, x, l);
      } else {
        var q :| Sure(s.tasks[n].prog, x, q);
        SureStays(s, es[l], n, x, q);
      }
    }
  }

  lemma {:induction false} OnlyWrites(ks: seq<Key>)
    ensures |Writes(ks)| == |ks| && forall y <- Writes(ks) :: y.WriteTo?
  {
    if ks != [] {
      OnlyWrites(ks[1..]);
    }
  }

  /** The step that ends what with_reader_released began. */
  function LiftOf(db: string, coll: string, parts: seq<string>, loaded: bool): Instr {
    UnfenceStep(db, coll, if loaded then OrDefault(parts) else parts)
  }

  lemma SureSteps(job: Job)
    requires job.WriteOp?
    ensures job.closeDelivered ==> Sure(Program(job), FenceStep(job.db, job.coll, job.parts), 0)
    ensures job.reopenDelivered ==> exists p :: Sure(Program(job), LiftOf(job.db, job.coll, job.parts, job.loaded), p)
  {
    var ws := Writes(KeysOf(job.db, job.coll, job.writes));
    OnlyWrites(KeysOf(job.db, job.coll, job.writes));
    var before := (if job.closeDelivered then [FenceStep(job.db, job.coll, job.parts)] else []) + ws;
    assert forall h | 0 <= h < |before| :: before[h].FenceStep? || before[h] in ws;
    assert job.reopenDelivered ==> Sure(Program(job), LiftOf(job.db, job.coll, job.parts, job.loaded), |before|);
  }

  /** An operation that is over, however it ended, has closed and fenced what it is
      about if its close notice was delivered, and has lifted the fences of what it
      reopens if its last notice was. */
  lemma OperationFencesAndLifts(s0: Sys, es: seq<Event>, i: nat, job: Job, k: Key)
    requires s0.tasks == [] && i < |es| && es[i] == Start(job) && job.WriteOp? && Covers(job.db, job.coll, job.parts, k)
    ensures var n := |Run(s0, es[..i]).tasks|;
            n < |Run(s0, es).tasks| && (Run(s0, es).tasks[n].status != Running ==>
              && (job.closeDelivered ==> exists j :: i < j && ClosesAt(s0, es, n, k, j) && IsFenced(Run(s0, es[..j + 1]).reader, k))
              && (job.reopenDelivered && (job.loaded ==> k.part in OrDefault(job.parts)) ==> exists j :: i < j && LiftsAt(s0, es, n, k, j)))
  {
    var n := |Run(s0, es[..i]).tasks|;
    Began(s0, es, i);
    SureSteps(job);
    ReturnedIsDone(s0, es, n);
    if Run(s0, es).tasks[n].status != Running && job.closeDelivered {
      var x := FenceStep(job.db, job.coll, job.parts);
      DoneOrSure(s0, es, n, i + 1, x, 0);
      var j :| i + 1 <= j && Does(s0, es, n, x, j);
      RunPrefix(s0, es, j);
      CloseInstrCloses(Run(s0, es[..j]), es[j], x, k, true);
      assert ClosesAt(s0, es, n, k, j);
    }
    if Run(s0, es).tasks[n].status != Running && job.reopenDelivered && (job.loaded ==> k.part in OrDefault(job.parts)) {
      var x := LiftOf(job.db, job.coll, job.parts, job.loaded);
      var p :| Sure(Program(job), x, p);
      DoneOrSure(s0, es, n, i + 1, x, p);
      var j :| i + 1 <= j && Does(s0, es, n, x, j);
      RunPrefix(s0, es, j);
      UnfenceLifts(Run(s0, es[..j]), es[j], x, k);
      assert LiftsAt(s0, es, n, k, j);
    }
  }

  // ---------- reload ----------

  /** The keys of the cache are read in the end, in some order. */
  lemma KeysRead(s0: Sys, es: seq<Event>, n: nat, j: nat) returns (h: nat)
    requires s0.tasks == [] && n < |Run(s0, es).tasks| && Run(s0, es).tasks[n].status == Returned
    requires Does(s0, es, n, ReloadKeys, j) && !Run(s0, es).tasks[n].job.WriteOp?
    ensures j <= h && Does(s0, es, n, ReloadKeys, h) && Enumerates(es[h].order, Run(s0, es[..h]).reader.handles.Keys)
    decreases |es| - j
  {
    var s := Run(s0, es[..j]);
    if Enumerates(es[j].order, s.reader.handles.Keys) {
      h := j;
    } else {
      assert Next(s, es[j]).tasks[n].prog[0] == ReloadKeys;
      var g := NextTurn(s0, es, n, ReloadKeys, ReloadKeys, j);
      h := KeysRead(s0, es, n, g);
    }
  }

  lemma {:induction false} UnfencedReopensListed(ks: seq<Key>, k: Key)
    requires k in ks
    ensures ReopenUnfenced(k) in UnfencedReopens(ks)
  {
    if ks[0] != k {
      UnfencedReopensListed(ks[1..], k);
    }
  }

  lemma KeysTurn(s: Sys, e: Event, k: Key)
    requires HeadOf(s, e) == Some(ReloadKeys) && Enumerates(e.order, s.reader.handles.Keys) && k in s.reader.handles
    ensures var prog := Next(s, e).tasks[e.t].prog; CloseOne(k) in prog && ReopenUnfenced(k) in prog
  {
    ClosesListed(e.order, k);
    UnfencedReopensListed(e.order, k);
  }

  /** In event j the task comes to reopen `k`, and something stands in its way, or
      it has it open afterwards. */
  ghost predicate TriesAt(s0: Sys, es: seq<Event>, n: nat, k: Key, j: int) {
    Turn(s0, es, n, j)
    && var s, x := Run(s0, es[..j]), HeadOf(Run(s0, es[..j]), es[j]).value;
       && (x in {ReopenUnfenced(k), Reopen(k, false), OpenFirst(k, true, false, false), OpenSecond(k, false, false)})
       && (IsFenced(s.reader, k) || HasWal(s.disk, k) || k !in s.disk || (x.OpenSecond? && !es[j].answer.OpenOk?)
           || k in Run(s0, es[..j + 1]).reader.handles)
  }

  /** A reload that has been answered has closed every partition that was open when
      it read the keys, and has then come to reopen each of them. */
  lemma ReloadReplacesAll(s0: Sys, es: seq<Event>, i: nat) returns (r: nat)
    requires s0.tasks == [] && i < |es| && es[i] == Start(ReloadNotice)
    ensures var n := |Run(s0, es[..i]).tasks|;
            n < |Run(s0, es).tasks| && (Run(s0, es).tasks[n].status == Returned ==>
              && i < r && Turn(s0, es, n, r)
              && forall k <- Run(s0, es[..r]).reader.handles ::
                   (exists j :: r < j && ClosesAt(s0, es, n, k, j)) && (exists h :: r < h && TriesAt(s0, es, n, k, h)))
  {
    var n := |Run(s0, es[..i]).tasks|;
    r := 0;
    Began(s0, es, i);
    if Run(s0, es).tasks[n].status == Returned {
      assert Program(ReloadNotice)[0] == ReloadKeys;
      ReturnedDid(s0, es, n, i + 1, ReloadKeys);
      var j :| i + 1 <= j && Does(s0, es, n, ReloadKeys, j);
      r := KeysRead(s0, es, n, j);
      forall k | k in Run(s0, es[..r]).reader.handles
        ensures (exists j :: r < j && ClosesAt(s0, es, n, k, j)) && (exists h :: r < h && TriesAt(s0, es, n, k, h))
      {
        KeysTurn(Run(s0, es[..r]), es[r], k);
        ClosesInTurn(s0, es, n, k, r);
        TriesInTurn(s0, es, n, k, r);
      }
    }
  }

  lemma ClosesInTurn(s0: Sys, es: seq<Event>, n: nat, k: Key, r: nat)
    requires s0.tasks == [] && n < |Run(s0, es).tasks| && Run(s0, es).tasks[n].status == Returned
    requires Does(s0, es, n, ReloadKeys, r) && !Run(s0, es).tasks[n].job.WriteOp?
    requires CloseOne(k) in Next(Run(s0, es[..r]), es[r]).tasks[n].prog
    ensures exists j :: r < j && ClosesAt(s0, es, n, k, j)
  {
    var j := NextTurn(s0, es, n, ReloadKeys, CloseOne(k), r);
    RunPrefix(s0, es, j);
    CloseInstrCloses(Run(s0, es[..j]), es[j], CloseOne(k), k, false);
    assert ClosesAt(s0, es, n, k, j);
  }

  /** The turns that follow a reopening whose failure is only logged. */
  lemma TriesInTurn(s0: Sys, es: seq<Event>, n: nat, k: Key, r: nat)
    requires s0.tasks == [] && n < |Run(s0, es).tasks| && Run(s0, es).tasks[n].status == Returned
    requires Does(s0, es, n, ReloadKeys, r) && !Run(s0, es).tasks[n].job.WriteOp?
    requires ReopenUnfenced(k) in Next(Run(s0, es[..r]), es[r]).tasks[n].prog
    ensures exists h :: r < h && TriesAt(s0, es, n, k, h)
  {
    hide Next, React, Run, HasWal, IsFenced;
    var a := NextTurn(s0, es, n, ReloadKeys, ReopenUnfenced(k), r);
    if IsFenced(Run(s0, es[..a]).reader, k) {
      assert TriesAt(s0, es, n, k, a);
      return;
    }
    UnfencedTurn(Run(s0, es[..a]), es[a], k);
    var b := NextTurn(s0, es, n, ReopenUnfenced(k), Reopen(k, false), a);
    QuietReopenTries(s0, es, n, k, b);
  }

  lemma QuietReopenTries(s0: Sys, es: seq<Event>, n: nat, k: Key, b: nat)
    requires s0.tasks == [] && n < |Run(s0, es).tasks| && Run(s0, es).tasks[n].status == Returned
    requires Does(s0, es, n, Reopen(k, false), b) && !Run(s0, es).tasks[n].job.WriteOp?
    ensures exists h :: b <= h && TriesAt(s0, es, n, k, h)
  {
    hide Next, React, Run, HasWal, IsFenced;
    if HasWal(Run(s0, es[..b]).disk, k) {
      assert TriesAt(s0, es, n, k, b);
      return;
    }
    QuietReopenTurn(Run(s0, es[..b]), es[b], k);
    var c := NextTurn(s0, es, n, Reopen(k, false), OpenFirst(k, true, false, false), b);
    if k !in Run(s0, es[..c]).disk || IsFenced(Run(s0, es[..c]).reader, k) {
      assert TriesAt(s0, es, n, k, c);
      return;
    }
    QuietFirstTurn(Run(s0, es[..c]), es[c], k);
    var d := NextTurn(s0, es, n, OpenFirst(k, true, false, false), OpenSecond(k, false, false), c);
    RunPrefix(s0, es, d);
    QuietSecondTurn(Run(s0, es[..d]), es[d], k);
    assert TriesAt(s0, es, n, k, d);
  }

  lemma UnfencedTurn(s: Sys, e: Event, k: Key)
    requires HeadOf(s, e) == Some(ReopenUnfenced(k)) && !IsFenced(s.reader, k)
    ensures Reopen(k, false) in Next(s, e).tasks[e.t].prog
  {
    assert Next(s, e).tasks[e.t].prog[0] == Reopen(k, false);
  }

  lemma QuietReopenTurn(s: Sys, e: Event, k: Key)
    requires HeadOf(s, e) == Some(Reopen(k, false)) && !HasWal(s.disk, k)
    ensures OpenFirst(k, true, false, false) in Next(s, e).tasks[e.t].prog
  {
    assert Next(s, e).tasks[e.t].prog[0] == OpenFirst(k, true, false, false);
  }

  lemma QuietFirstTurn(s: Sys, e: Event, k: Key)
    requires HeadOf(s, e) == Some(OpenFirst(k, true, false, false)) && k in s.disk && !IsFenced(s.reader, k)
    ensures OpenSecond(k, false, false) in Next(s, e).tasks[e.t].prog
  {
    assert Next(s, e).tasks[e.t].prog[0] == OpenSecond(k, false, false);
  }

  lemma QuietSecondTurn(s: Sys, e: Event, k: Key)
    requires HeadOf(s, e) == Some(OpenSecond(k, false, false))
    ensures IsFenced(s.reader, k) || HasWal(s.disk, k) || k !in s.disk || !e.answer.OpenOk? || k in Next(s, e).reader.handles
  {
  }

  // ---------- refresh pass ----------

  /** In event j the task finds `k` fenced and leaves it as it is. */
  ghost predicate LeavesAt(s0: Sys, es: seq<Event>, n: nat, k: Key, j: int) {
    Does(s0, es, n, VisitPart(k), j) && IsFenced(Run(s0, es[..j]).reader, k)
  }

  /** A refresh pass that has run to its end has found each partition it came to
      fenced, or has closed it and then come to reopen it. */
  lemma PassReopensAll(s0: Sys, es: seq<Event>, i: nat, visits: seq<Visit>, k: Key)
    requires s0.tasks == [] && i < |es| && es[i] == Start(RefreshPass(visits)) && VisitsPart(visits, k)
    ensures var n := |Run(s0, es[..i]).tasks|;
            n < |Run(s0, es).tasks| && (Run(s0, es).tasks[n].status == Returned ==>
              || (exists j :: i < j && LeavesAt(s0, es, n, k, j))
              || ((exists j :: i < j && ClosesAt(s0, es, n, k, j)) && exists h :: i < h && TriesAt(s0, es, n, k, h)))
  {
    var n := |Run(s0, es[..i]).tasks|;
    Began(s0, es, i);
    if Run(s0, es).tasks[n].status == Returned {
      PassListsPart(visits, k);
      ReturnedDid(s0, es, n, i + 1, VisitPart(k));
      var j :| i + 1 <= j && Does(s0, es, n, VisitPart(k), j);
      if IsFenced(Run(s0, es[..j]).reader, k) {
        assert LeavesAt(s0, es, n, k, j);
      } else {
        VisitTurn(Run(s0, es[..j]), es[j], k);
        var c := NextTurn(s0, es, n, VisitPart(k), CloseOne(k), j);
        RunPrefix(s0, es, c);
        CloseInstrCloses(Run(s0, es[..c]), es[c], CloseOne(k), k, false);
        assert ClosesAt(s0, es, n, k, c);
        var b := NextTurn(s0, es, n, VisitPart(k), Reopen(k, false), j);
        QuietReopenTries(s0, es, n, k, b);
      }
    }
  }

  lemma VisitTurn(s: Sys, e: Event, k: Key)
    requires HeadOf(s, e) == Some(VisitPart(k)) && !IsFenced(s.reader, k)
    ensures var prog := Next(s, e).tasks[e.t].prog; CloseOne(k) in prog && Reopen(k, false) in prog
  {
    assert Next(s, e).tasks[e.t].prog[0] == CloseOne(k) && Next(s, e).tasks[e.t].prog[2] == Reopen(k, false);
  }
}
