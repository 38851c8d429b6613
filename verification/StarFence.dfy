/** What the refresh loop misses: a fence request that spells "*" as a partition
    name fences the collection without closing it, and the loop skips what is
    fenced. */
module StarFence {
  import opened Partitions
  import opened Protocol
  import opened RefreshPasses

  const K := Key("default", "c1", "p1")
  const STAR := Key("default", "c1", "*")
  const OPENING := OpenNotice("default", "c1", ["p1"])
  const FENCING := CloseNotice("default", "c1", ["*"], true)
  const PASS := RefreshPass([Loaded("default", "c1", ["p1"])])
  const BEFORE := Sys(1, DISK, Manager(true, map[], {}), [])
  const DISK := map[K := PartFile(0, 0, false)]

  function Turn(t: nat): Event {
    Step(t, OpenOk(false), [])
  }

  /** The Reader opens the partition, is asked to fence "*", and runs a pass. */
  const EVENTS: seq<Event> :=
    [Start(OPENING), Turn(0), Turn(0), Turn(0), Turn(0), Start(FENCING), Turn(1), Start(PASS), Turn(2)]

  function Quietly(job: Job, start: nat, left: seq<Instr>): Task {
    Task(job, start, DISK, left, if left == [] then Returned else Running, false, {}, {}, {}, {}, {}, {}, map[])
  }

  const UNFENCE := UnfenceStep("default", "c1", ["p1"])
  const NONE: seq<Instr> := []
  const H := map[K := Handle(5, 0)]
  const OPENED := Quietly(OPENING, 1, NONE)
  const FENCED := Quietly(FENCING, 6, NONE).(held := {STAR})

  function S(n: nat): Sys {
    if n == 0 then BEFORE
    else if n == 1 then Sys(2, DISK, BEFORE.reader, [Quietly(OPENING, 1, [UNFENCE, Reopen(K, true)])])
    else if n == 2 then Sys(3, DISK, BEFORE.reader, [Quietly(OPENING, 1, [Reopen(K, true)])])
    else if n == 3 then Sys(4, DISK, BEFORE.reader, [Quietly(OPENING, 1, [OpenFirst(K, true, true, false)])])
    else if n == 4 then Sys(5, DISK, BEFORE.reader, [Quietly(OPENING, 1, [OpenSecond(K, true, false)])])
    else if n == 5 then Sys(6, DISK, Manager(true, H, {}), [OPENED])
    else if n == 6 then Sys(7, DISK, Manager(true, H, {}), [OPENED, Quietly(FENCING, 6, [FenceStep("default", "c1", ["*"])])])
    else if n == 7 then Sys(8, DISK, Manager(true, H, {STAR}), [OPENED, FENCED])
    else if n == 8 then Sys(9, DISK, Manager(true, H, {STAR}), [OPENED, FENCED, Quietly(PASS, 8, [VisitPart(K)])])
    else Sys(10, DISK, Manager(true, H, {STAR}), [OPENED, FENCED, Quietly(PASS, 8, NONE).(skipped := {K}, missed := {K})])
  }

  lemma Programs()
    ensures Program(OPENING) == [UNFENCE, Reopen(K, true)]
    ensures Program(FENCING) == [FenceStep("default", "c1", ["*"])]
    ensures Program(PASS) == [VisitPart(K)]
    ensures Keys("default", "c1", ["*"]) == {STAR} && STAR != K
  {
  }

  /** One turn of a task that has done nothing so far. */
  lemma Takes(s: Sys, t: nat, job: Job, start: nat, x: Instr, rest: seq<Instr>) returns (o: Outcome, u: Task)
    requires t < |s.tasks| && s.tasks[t] == Quietly(job, start, [x] + rest)
    requires !x.CloseOne? && !x.CloseAll? && !x.WriteTo? && (x.OpenFirst? || x.OpenSecond? ==> !x.uses)
    ensures o == React(s.reader, s.disk, s.now, x, OpenOk(false), [])
    ensures !o.abort ==>
              u == Quietly(job, start, o.todo + rest)
                   .(held := HeldAfter({}, x), skipped := SkippedBy(x, s.reader), missed := MissedBy(x, s.reader))
    ensures Next(s, Turn(t)) == Sys(s.now + 1, o.disk, o.reader, s.tasks[t := u])
  {
    o := React(s.reader, s.disk, s.now, x, OpenOk(false), []);
    u := Advance(s.tasks[t], s.reader, s.disk, s.now, o);
    assert ([x] + rest)[1..] == rest;
  }

  lemma StartEdges()
    ensures Next(S(0), Start(OPENING)) == S(1) && Next(S(5), Start(FENCING)) == S(6) && Next(S(7), Start(PASS)) == S(8)
  {
    Programs();
  }

  lemma UnfenceEdge()
    ensures Next(S(1), Turn(0)) == S(2)
  {
    hide Next;
    assert [UNFENCE, Reopen(K, true)] == [UNFENCE] + [Reopen(K, true)];
    var o, u := Takes(S(1), 0, OPENING, 1, UNFENCE, [Reopen(K, true)]);
    assert o.reader == BEFORE.reader && NONE + [Reopen(K, true)] == [Reopen(K, true)];
    assert S(1).tasks[0 := u] == [u];
  }

  lemma ReopenEdge()
    ensures Next(S(2), Turn(0)) == S(3)
  {
    hide Next;
    assert [Reopen(K, true)] == [Reopen(K, true)] + NONE;
    var o, u := Takes(S(2), 0, OPENING, 1, Reopen(K, true), NONE);
    assert [OpenFirst(K, true, true, false)] + NONE == [OpenFirst(K, true, true, false)];
    assert S(2).tasks[0 := u] == [u];
  }

  lemma LookupEdge()
    ensures Next(S(3), Turn(0)) == S(4)
  {
    hide Next;
    assert [OpenFirst(K, true, true, false)] == [OpenFirst(K, true, true, false)] + NONE;
    var o, u := Takes(S(3), 0, OPENING, 1, OpenFirst(K, true, true, false), NONE);
    assert [OpenSecond(K, true, false)] + NONE == [OpenSecond(K, true, false)];
    assert S(3).tasks[0 := u] == [u];
  }

  lemma OpenEdge()
    ensures Next(S(4), Turn(0)) == S(5)
  {
    hide Next;
    assert [OpenSecond(K, true, false)] == [OpenSecond(K, true, false)] + NONE;
    var o, u := Takes(S(4), 0, OPENING, 1, OpenSecond(K, true, false), NONE);
    assert o.reader == Manager(true, H, {}) && NONE + NONE == NONE;
    assert S(4).tasks[0 := u] == [u];
  }

  /** The fence closes nothing: no partition is called "*". */
  lemma FenceEdge()
    ensures Next(S(6), Turn(1)) == S(7)
  {
    hide Next;
    Programs();
    var x := FenceStep("default", "c1", ["*"]);
    assert [x] == [x] + NONE;
    var o, u := Takes(S(6), 1, FENCING, 6, x, NONE);
    assert H - {STAR} == H && o.reader == Manager(true, H, {STAR}) && NONE + NONE == NONE;
    assert {} + {STAR} == {STAR};
    assert S(6).tasks[1 := u] == [OPENED, u];
  }

  lemma SkipEdge()
    ensures Next(S(8), Turn(2)) == S(9)
  {
    hide Next;
    assert [VisitPart(K)] == [VisitPart(K)] + NONE && IsFenced(S(8).reader, K);
    var o, u := Takes(S(8), 2, PASS, 8, VisitPart(K), NONE);
    assert NONE + NONE == NONE;
    assert S(8).tasks[2 := u] == [OPENED, FENCED, u];
  }

  lemma Edge(n: nat, s: Sys)
    requires n < |EVENTS| && s == S(n)
    ensures Next(s, EVENTS[n]) == S(n + 1)
  {
    hide Next, S;
    if n in {0, 5, 7} { StartEdges(); }
    else if n == 1 { UnfenceEdge(); }
    else if n == 2 { ReopenEdge(); }
    else if n == 3 { LookupEdge(); }
    else if n == 4 { OpenEdge(); }
    else if n == 6 { FenceEdge(); }
    else { SkipEdge(); }
  }

  lemma {:induction false} Trace(n: nat)
    requires n <= |EVENTS|
    ensures Run(BEFORE, EVENTS[..n]) == S(n)
  {
    if n > 0 {
      Trace(n - 1);
      assert EVENTS[..n][..n - 1] == EVENTS[..n - 1];
      Edge(n - 1, S(n - 1));
    }
  }

  /** The pass has run to its end, and the handle on the partition it visited is
      older than the pass. */
  lemma PassMissesStarFenced()
    ensures Initial(BEFORE) && EVENTS[7] == Start(PASS) && VisitsPart(PASS.visits, K)
    ensures Run(BEFORE, EVENTS[..7]).now == 8
    ensures var s := Run(BEFORE, EVENTS);
            && |s.tasks| == 3 && s.tasks[2].status == Returned && s.tasks[2].missed == {K}
            && s.reader.handles == map[K := Handle(5, 0)]
  {
    hide Run;
    Trace(7);
    Trace(9);
    assert EVENTS[..9] == EVENTS;
    assert PASS.visits[0] in PASS.visits;
  }
}
