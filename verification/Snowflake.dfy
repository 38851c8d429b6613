/** The generator of automatic Int64 primary keys. */
module Snowflake {
  import opened Bits

  const EPOCH := 1_700_000_000_000
  const SEQUENCES := 0x1000
  const WORKERS := 0x400
  const WINDOW := 0x200_0000_0000

  datatype Gen = Gen(worker: nat, sequence: nat, lastMs: int)

  ghost predicate ValidGen(g: Gen) {
    g.worker < WORKERS && g.sequence < SEQUENCES
  }

  /** `((last_ms - epoch) & mask) << 22 | worker << 12 | sequence` */
  function IdOf(g: Gen): nat {
    Or(Or(Shl((g.lastMs - EPOCH) % WINDOW, 22), Shl(g.worker, 12)), g.sequence)
  }

  /** One call, with its first clock reading and, for the case that the sequence
      wraps within a millisecond, the reading that ends the spin loop. */
  function Issue(g: Gen, now: int, later: int): Gen {
    if now != g.lastMs then g.(sequence := 0, lastMs := now)
    else if (g.sequence + 1) % SEQUENCES != 0 then g.(sequence := (g.sequence + 1) % SEQUENCES)
    else g.(sequence := 0, lastMs := later)
  }

  predicate Wraps(g: Gen, now: int) {
    now == g.lastMs && (g.sequence + 1) % SEQUENCES == 0
  }

  // ---------- the clock ----------

  /** Whatever it has shown, and whenever one looks, the clock will show more; it
      may go back in between. */
  ghost predicate Advances(clock: nat -> int) {
    forall t: int, i: nat :: Passes(clock, i, t)
  }

  ghost predicate Passes(clock: nat -> int, i: nat, t: int) {
    exists j: nat :: i <= j && clock(j) > t
  }

  class Snowflake {
    const workerId: nat
    var sequence: nat
    var lastMs: int

    constructor (worker: int)
      ensures State() == Gen(worker % WORKERS, 0, 0) && ValidGen(State())
    {
      workerId := worker % WORKERS;
      sequence := 0;
      lastMs := 0;
    }

    function State(): Gen
      reads this
    {
      Gen(workerId, sequence, lastMs)
    }

    /** next_id.  `tick` counts the clock readings; the loop ends because the
        clock advances in the end. */
    method NextId(clock: nat -> int, tick: nat) returns (id: nat, next: nat)
      requires ValidGen(State()) && Advances(clock)
      modifies this`sequence, this`lastMs
      ensures next > tick && State() == Issue(old(State()), clock(tick), clock(next - 1)) && ValidGen(State())
      ensures Wraps(old(State()), clock(tick)) ==> clock(next - 1) > old(lastMs)
      ensures forall i | tick < i < next - 1 :: clock(i) <= old(lastMs)
      ensures !Wraps(old(State()), clock(tick)) ==> next == tick + 1
      ensures id == IdOf(State())
    {
      var now := clock(tick);
      next := tick + 1;
      if now == lastMs {
        sequence := (sequence + 1) % SEQUENCES;
        if sequence == 0 {
          assert Passes(clock, next, lastMs);
          ghost var stop: nat :| next <= stop && clock(stop) > lastMs;
          while now <= lastMs
            invariant tick < next && now == clock(next - 1) && next <= stop + 1
            invariant forall i | tick < i < next - 1 :: clock(i) <= lastMs
            decreases stop + 1 - next
          {
            now := clock(next);
            next := next + 1;
          }
        }
      } else {
        sequence := 0;
      }
      lastMs := now;
      id := IdOf(State());
    }
  }

  // ---------- the shape of an id ----------

  lemma IdIsSum(g: Gen)
    requires ValidGen(g)
    ensures IdOf(g) == ((g.lastMs - EPOCH) % WINDOW) * 0x40_0000 + g.worker * 0x1000 + g.sequence
  {
    hide Or, Shl;
    var ts := (g.lastMs - EPOCH) % WINDOW;
    Shl22(1);
    Shl10(1);
    Shl22(ts);
    Shl10(g.worker);
    OrDisjoint(ts, Shl(g.worker, 12), 22);
    Shl10(0x400 * ts + g.worker);
    OrDisjoint(0x400 * ts + g.worker, g.sequence, 12);
  }

  function Decode(id: nat): (int, nat, nat) {
    (id / 0x40_0000, (id / 0x1000) % 0x400, id % 0x1000)
  }

  /** An id fits a positive 64-bit integer and holds its three fields, whatever
      the clock showed. */
  lemma IdRoundTrip(g: Gen)
    requires ValidGen(g)
    ensures IdOf(g) < 0x8000_0000_0000_0000
    ensures Decode(IdOf(g)) == ((g.lastMs - 1_700_000_000_000) % 0x200_0000_0000, g.worker, g.sequence)
  {
    IdIsSum(g);
    Fields((g.lastMs - EPOCH) % WINDOW, g.worker, g.sequence);
  }

  lemma Fields(ts: nat, worker: nat, sequence: nat)
    requires worker < WORKERS && sequence < SEQUENCES
    ensures Decode(ts * 0x40_0000 + worker * 0x1000 + sequence) == (ts, worker, sequence)
  {
    var id := ts * 0x40_0000 + worker * 0x1000 + sequence;
    assert id / 0x40_0000 == ts && id / 0x1000 == ts * 0x400 + worker && id % SEQUENCES == sequence;
    assert (ts * 0x400 + worker) % WORKERS == worker;
  }

  /** Generators of different workers never produce the same id. */
  lemma WorkersNeverCollide(g: Gen, h: Gen)
    requires ValidGen(g) && ValidGen(h) && g.worker != h.worker
    ensures IdOf(g) != IdOf(h)
  {
    IdRoundTrip(g);
    IdRoundTrip(h);
  }

  // ---------- ids increase ----------

  predicate InWindow(t: int) {
    EPOCH <= t < EPOCH + WINDOW
  }

  /** Within the 41-bit window the next id is larger exactly when the clock has
      not gone back. */
  lemma IncreasesIff(g: Gen, now: int, later: int)
    requires ValidGen(g) && InWindow(g.lastMs) && InWindow(now) && (Wraps(g, now) ==> InWindow(later) && later > g.lastMs)
    ensures ValidGen(Issue(g, now, later)) && InWindow(Issue(g, now, later).lastMs)
    ensures IdOf(Issue(g, now, later)) > IdOf(g) <==> now >= g.lastMs
  {
    IdInWindow(g);
    IdInWindow(Issue(g, now, later));
  }

  lemma IdInWindow(g: Gen)
    requires ValidGen(g) && InWindow(g.lastMs)
    ensures IdOf(g) == (g.lastMs - EPOCH) * 0x40_0000 + g.worker * 0x1000 + g.sequence
  {
    IdIsSum(g);
    assert (g.lastMs - EPOCH) % WINDOW == g.lastMs - EPOCH;
  }

  /** A clock that goes back by one millisecond repeats an id. */
  lemma BackwardsClockRepeats(worker: nat, t: int)
    requires worker < WORKERS && InWindow(t)
    ensures var a := Issue(Gen(worker, 0, 0), t, t);
            var b := Issue(a, t + 1, t + 1);
            IdOf(Issue(b, t, t)) == IdOf(a)
  {
  }

  /** Two clock readings, as in Issue. */
  datatype Call = Call(now: int, later: int)

  function Run(g: Gen, calls: seq<Call>): Gen {
    if calls == [] then g
    else
      var last := calls[|calls| - 1];
      Issue(Run(g, calls[..|calls| - 1]), last.now, last.later)
  }

  /** A new millisecond starts its sequence at 0 and has 4096 ids; the next call
      waits for a later reading. */
  lemma {:induction false} Burst(g: Gen, now: int, later: int, n: nat)
    requires ValidGen(g) && now != g.lastMs && later != now
    ensures var burst := seq(n + 1, _ => Call(now, later));
            && (n < 4096 ==> Run(g, burst) == Gen(g.worker, n, now))
            && (n == 4096 ==> Run(g, burst) == Gen(g.worker, 0, later))
  {
    var burst := seq(n + 1, _ => Call(now, later));
    if n == 0 {
      assert burst[..0] == [];
    } else {
      Burst(g, now, later, n - 1);
      assert burst[..n] == seq(n, _ => Call(now, later));
    }
  }

  /** Readings from a clock that does not go back, inside the window, with the
      loop's exit condition. */
  ghost predicate Steady(g: Gen, calls: seq<Call>) {
    forall i | 0 <= i < |calls| ::
      var p := Run(g, calls[..i]);
      && InWindow(calls[i].now) && calls[i].now >= p.lastMs
      && (Wraps(p, calls[i].now) ==> InWindow(calls[i].later) && calls[i].later > p.lastMs)
  }

  lemma SteadyPrefix(g: Gen, calls: seq<Call>, n: nat)
    requires Steady(g, calls) && n <= |calls|
    ensures Steady(g, calls[..n])
  {
    forall i | 0 <= i < n
      ensures var p := Run(g, calls[..n][..i]);
              && InWindow(calls[..n][i].now) && calls[..n][i].now >= p.lastMs
              && (Wraps(p, calls[..n][i].now) ==> InWindow(calls[..n][i].later) && calls[..n][i].later > p.lastMs)
    {
      assert calls[..n][..i] == calls[..i];
    }
  }

  lemma {:induction false} RunStaysInWindow(g: Gen, calls: seq<Call>)
    requires ValidGen(g) && g.lastMs == 0 && Steady(g, calls)
    ensures ValidGen(Run(g, calls)) && Run(g, calls).worker == g.worker
    ensures calls != [] ==> InWindow(Run(g, calls).lastMs)
  {
    if calls != [] {
      var l := |calls| - 1;
      SteadyPrefix(g, calls, l);
      RunStaysInWindow(g, calls[..l]);
    }
  }

  /** Ids strictly increase over every run of a new generator. */
  lemma {:induction false} IdsIncrease(g: Gen, calls: seq<Call>, i: nat, j: nat)
    requires ValidGen(g) && g.lastMs == 0 && Steady(g, calls) && 0 < i < j <= |calls|
    ensures IdOf(Run(g, calls[..i])) < IdOf(Run(g, calls[..j]))
    decreases j
  {
    SteadyPrefix(g, calls, j - 1);
    RunStaysInWindow(g, calls[..j - 1]);
    assert calls[..j][..j - 1] == calls[..j - 1];
    IncreasesIff(Run(g, calls[..j - 1]), calls[j - 1].now, calls[j - 1].later);
    if i < j - 1 {
      IdsIncrease(g, calls, i, j - 1);
    }
  }
}
