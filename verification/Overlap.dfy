/** What goes wrong when the Writer's operations on one collection overlap:
    fences are not counted, so the first operation to end lifts the fence of the
    other, the Reader reopens, and the other one's write is refused. */
module Overlap {
  import opened Wrappers
  import opened Partitions
  import opened Protocol
  import opened FenceWindow
  import opened ReadYourWrites

  const K := Key("default", "c1", "p1")
  const PARTS: seq<string> := ["p1"]
  const OP := WriteOp("default", "c1", PARTS, PARTS, true, true, true)
  const FENCE := FenceStep("default", "c1", PARTS)
  const UNFENCE := UnfenceStep("default", "c1", PARTS)
  const BEFORE := Sys(1, map[K := PartFile(0, 0, false)], Manager(true, map[], {}), [])

  function Turn(t: nat): Event {
    Step(t, OpenOk(false), [])
  }

  /** An operation on K, with the instructions it has left. */
  function Op(start: nat, left: seq<Instr>, raising: bool, held: set<Key>, wrote: map<Key, nat>): Task {
    Task(OP, start, BEFORE.disk, left, if left != [] then Running else if raising then Raised else Returned, raising,
         {}, {}, {}, {}, {}, held, wrote)
  }

  function State(now: nat, file: PartFile, handles: map<Key, Handle>, fenced: set<Key>, a: Task, b: Task): Sys {
    Sys(now, map[K := file], Manager(true, handles, fenced), [a, b])
  }

  /** Two operations fence the same partition.  The first writes, is sealed,
      returns and lets the Reader reopen; only then the second comes to write. */
  const EVENTS: seq<Event> :=
    [Start(OP), Start(OP), Turn(0), Turn(1),
     Turn(0), WalChange(K, false), Turn(0), Turn(0), Turn(0), Turn(0),
     Turn(1), Turn(1), Turn(1), Turn(1), Turn(1)]

  lemma OpProgram()
    ensures Program(OP) == [FENCE, WriteTo(K), UNFENCE, Reopen(K, true)]
    ensures Keys("default", "c1", PARTS) == {K}
  {
  }

  /** One turn of one of the two operations. */
  lemma OpTurn(s: Sys, t: nat, start: nat, x: Instr, rest: seq<Instr>, raising: bool, held: set<Key>, wrote: map<Key, nat>)
    returns (o: Outcome, u: Task)
    requires |s.tasks| == 2 && t < 2 && s.tasks[t] == Op(start, [x] + rest, raising, held, wrote)
    requires !x.CloseOne? && !x.CloseAll? && !x.VisitPart? && (x.OpenFirst? || x.OpenSecond? ==> !x.uses)
    ensures o == React(s.reader, s.disk, s.now, x, OpenOk(false), [])
    ensures u == Op(start, if o.abort then Finally(x, rest) else o.todo + rest, raising || (o.abort && x.WriteTo?),
                    HeldAfter(held, x), WroteAfter(wrote, x, o, s.now))
    ensures Next(s, Turn(t)) == Sys(s.now + 1, o.disk, o.reader, if t == 0 then [u, s.tasks[1]] else [s.tasks[0], u])
  {
    o := React(s.reader, s.disk, s.now, x, OpenOk(false), []);
    u := Advance(s.tasks[t], s.reader, s.disk, s.now, o);
    assert ([x] + rest)[1..] == rest;
    assert s.tasks == [s.tasks[0], s.tasks[1]];
  }

  // What an operation has left after the fence, and after the write.
  const TODO: seq<Instr> := [WriteTo(K)] + WRITTEN
  const WRITTEN: seq<Instr> := [UNFENCE] + NOTIFIED
  const NOTIFIED: seq<Instr> := [Reopen(K, true)] + []
  const FIRST: seq<Instr> := [OpenFirst(K, true, true, false)] + []
  const SECOND: seq<Instr> := [OpenSecond(K, true, false)] + []

  const NOTHING: seq<Instr> := []
  const CLEAN := PartFile(0, 0, false)
  const SEALED := PartFile(0, 5, false)
  const WROTE := map[K := 5]
  const NEVER: map<Key, nat> := map[]
  const H := map[K := Handle(10, 5)]

  /** The state in front of event n. */
  function S(n: nat): Sys {
    if n == 0 then BEFORE
    else if n == 1 then Sys(2, BEFORE.disk, BEFORE.reader, [Op(1, [FENCE] + TODO, false, {}, NEVER)])
    else if n == 2 then State(3, CLEAN, map[], {}, Op(1, [FENCE] + TODO, false, {}, NEVER), Op(2, [FENCE] + TODO, false, {}, NEVER))
    else if n == 3 then State(4, CLEAN, map[], {K}, Op(1, TODO, false, {K}, NEVER), Op(2, [FENCE] + TODO, false, {}, NEVER))
    else if n == 4 then State(5, CLEAN, map[], {K}, Op(1, TODO, false, {K}, NEVER), Op(2, TODO, false, {K}, NEVER))
    else if n == 5 then State(6, PartFile(0, 5, true), map[], {K}, Op(1, WRITTEN, false, {K}, WROTE), Op(2, TODO, false, {K}, NEVER))
    else if n == 6 then State(7, SEALED, map[], {K}, Op(1, WRITTEN, false, {K}, WROTE), Op(2, TODO, false, {K}, NEVER))
    else if n == 7 then State(8, SEALED, map[], {}, Op(1, NOTIFIED, false, {}, WROTE), Op(2, TODO, false, {K}, NEVER))
    else if n == 8 then State(9, SEALED, map[], {}, Op(1, FIRST, false, {}, WROTE), Op(2, TODO, false, {K}, NEVER))
    else if n == 9 then State(10, SEALED, map[], {}, Op(1, SECOND, false, {}, WROTE), Op(2, TODO, false, {K}, NEVER))
    else if n == 10 then State(11, SEALED, H, {}, Op(1, [], false, {}, WROTE), Op(2, TODO, false, {K}, NEVER))
    else if n == 11 then State(12, SEALED, H, {}, Op(1, [], false, {}, WROTE), Op(2, WRITTEN, true, {K}, NEVER))
    else if n == 12 then State(13, SEALED, H, {}, Op(1, [], false, {}, WROTE), Op(2, NOTIFIED, true, {}, NEVER))
    else if n == 13 then State(14, SEALED, H, {}, Op(1, [], false, {}, WROTE), Op(2, FIRST, true, {}, NEVER))
    else if n == 14 then State(15, SEALED, map[], {}, Op(1, [], false, {}, WROTE), Op(2, SECOND, true, {}, NEVER))
    else State(16, SEALED, map[K := Handle(15, 5)], {}, Op(1, [], false, {}, WROTE), Op(2, [], true, {}, NEVER))
  }

  lemma StartEdges()
    ensures Next(S(0), Start(OP)) == S(1) && Next(S(1), Start(OP)) == S(2)
  {
    OpProgram();
    assert Program(OP) == [FENCE] + TODO;
  }

  lemma FenceEdges()
    ensures Next(S(2), Turn(0)) == S(3) && Next(S(3), Turn(1)) == S(4)
  {
    OpProgram();
    var o, u := OpTurn(S(2), 0, 1, FENCE, TODO, false, {}, NEVER);
    assert o.reader == Manager(true, map[], {K}) && NOTHING + TODO == TODO;
    o, u := OpTurn(S(3), 1, 2, FENCE, TODO, false, {}, NEVER);
    assert o.reader == Manager(true, map[], {K});
  }

  /** The first operation writes version 5 and is sealed. */
  lemma WriteEdge()
    ensures Next(S(4), Turn(0)) == S(5)
  {
    hide Next;
    var o, u := OpTurn(S(4), 0, 1, WriteTo(K), WRITTEN, false, {K}, NEVER);
    assert o.disk == map[K := PartFile(0, 5, true)] && NOTHING + WRITTEN == WRITTEN;
    assert NEVER[K := 5] == WROTE;
  }

  lemma SealEdge()
    ensures Next(S(5), WalChange(K, false)) == S(6)
  {
    assert SetWal(S(5).disk, K, false) == S(6).disk;
  }

  lemma UnfenceK(h: map<Key, Handle>, fenced: set<Key>)
    requires fenced <= {K}
    ensures Unfence(Manager(true, h, fenced), "default", "c1", PARTS) == Manager(true, h, {})
  {
  }

  /** Its reopen notice lifts the fence of both, finds no log file, and reopens. */
  lemma FirstUnfenceEdge()
    ensures Next(S(6), Turn(0)) == S(7)
  {
    hide Next;
    UnfenceK(map[], {K});
    var o, u := OpTurn(S(6), 0, 1, UNFENCE, NOTIFIED, false, {K}, WROTE);
    assert NOTHING + NOTIFIED == NOTIFIED;
  }

  lemma FirstReopenEdge()
    ensures Next(S(7), Turn(0)) == S(8)
  {
    hide Next;
    var o, u := OpTurn(S(7), 0, 1, Reopen(K, true), NOTHING, false, {}, WROTE);
  }

  lemma FirstLookupEdge()
    ensures Next(S(8), Turn(0)) == S(9)
  {
    hide Next;
    var o, u := OpTurn(S(8), 0, 1, OpenFirst(K, true, true, false), NOTHING, false, {}, WROTE);
  }

  lemma FirstOpenEdge()
    ensures Next(S(9), Turn(0)) == S(10)
  {
    hide Next;
    var o, u := OpTurn(S(9), 0, 1, OpenSecond(K, true, false), NOTHING, false, {}, WROTE);
    assert o.reader == Manager(true, H, {}) && NOTHING + NOTHING == NOTHING;
  }

  /** The second operation cannot get the exclusive lock. */
  lemma RefusedEdge()
    ensures Next(S(10), Turn(1)) == S(11)
  {
    hide Next;
    var o, u := OpTurn(S(10), 1, 2, WriteTo(K), WRITTEN, false, {K}, NEVER);
    assert Attached(S(10).reader, S(10).disk, K);
    assert !WRITTEN[0].WriteTo? && AfterWrites(WRITTEN) == WRITTEN;
  }

  lemma SecondUnfenceEdge()
    ensures Next(S(11), Turn(1)) == S(12)
  {
    hide Next;
    UnfenceK(H, {});
    var o, u := OpTurn(S(11), 1, 2, UNFENCE, NOTIFIED, true, {K}, NEVER);
    assert NOTHING + NOTIFIED == NOTIFIED;
  }

  lemma SecondReopenEdge()
    ensures Next(S(12), Turn(1)) == S(13)
  {
    hide Next;
    var o, u := OpTurn(S(12), 1, 2, Reopen(K, true), NOTHING, true, {}, NEVER);
  }

  lemma SecondLookupEdge()
    ensures Next(S(13), Turn(1)) == S(14)
  {
    hide Next;
    var o, u := OpTurn(S(13), 1, 2, OpenFirst(K, true, true, false), NOTHING, true, {}, NEVER);
    assert H - {K} == map[];
  }

  lemma SecondOpenEdge()
    ensures Next(S(14), Turn(1)) == S(15)
  {
    hide Next;
    var o, u := OpTurn(S(14), 1, 2, OpenSecond(K, true, false), NOTHING, true, {}, NEVER);
    assert NOTHING + NOTHING == NOTHING;
  }

  lemma Edge(n: nat, s: Sys)
    requires n < |EVENTS| && s == S(n)
    ensures Next(s, EVENTS[n]) == S(n + 1)
  {
    hide Next, S;
    if n < 2 { StartEdges(); }
    else if n < 4 { FenceEdges(); }
    else if n < 5 { WriteEdge(); }
    else if n < 6 { SealEdge(); }
    else if n < 7 { FirstUnfenceEdge(); }
    else if n < 8 { FirstReopenEdge(); }
    else if n < 9 { FirstLookupEdge(); }
    else if n < 10 { FirstOpenEdge(); }
    else if n < 11 { RefusedEdge(); }
    else if n < 12 { SecondUnfenceEdge(); }
    else if n < 13 { SecondReopenEdge(); }
    else if n < 14 { SecondLookupEdge(); }
    else { SecondOpenEdge(); }
  }

  lemma {:induction false} Trace(n: nat)
    requires n <= |EVENTS|
    ensures Run(BEFORE, EVENTS[..n]) == S(n)
  {
    if n > 0 {
      Trace(n - 1);
      assert EVENTS[..n][..n - 1] == EVENTS[..n - 1];
      Edge(n - 1, S(n - 1));
    }
  }

  lemma WriteIsRefusedHere()
    ensures HeadOf(S(10), EVENTS[10]) == Some(WriteTo(K)) && EVENTS[10].answer.OpenOk?
    ensures !CanWrite(S(10).reader, S(10).disk, K, EVENTS[10].answer)
  {
  }

  /** Every notice was delivered and the engine failed nowhere; still the second
      operation has raised and has written nothing. */
  lemma OverlapRefusesWrite()
    ensures Initial(BEFORE) && WellFormedOp(OP)
    ensures var s := Run(BEFORE, EVENTS);
            && |s.tasks| == 2 && s.tasks[0].status == Returned && s.tasks[0].wrote == map[K := 5]
            && s.tasks[1].status == Raised && s.tasks[1].wrote == map[]
            && s.disk == map[K := PartFile(0, 5, false)]
    ensures var s := Run(BEFORE, EVENTS[..10]);
            HeadOf(s, EVENTS[10]) == Some(WriteTo(K)) && EVENTS[10].answer.OpenOk? && !CanWrite(s.reader, s.disk, K, EVENTS[10].answer)
  {
    hide Run, HeadOf, CanWrite;
    Trace(10);
    Trace(15);
    assert EVENTS[..15] == EVENTS;
    WriteIsRefusedHere();
  }
}
