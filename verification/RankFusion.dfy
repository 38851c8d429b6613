/** Reciprocal rank fusion: a row at rank r votes for its id with 1/(k + r). */
module RankFusion {
  import opened Wrappers
  import opened Search
  import opened Fusion

  function Recip(n: int): real
    requires n != 0
  {
    1.0 / n as real
  }

  /** Some rank r of the list has k + r == 0: the division raises. */
  predicate DividesByZero(lst: seq<Row>, k: int) {
    1 <= -k <= |lst|
  }

  ghost predicate NoZero(lists: seq<seq<Row>>, k: int) {
    forall i | 0 <= i < |lists| :: !DividesByZero(lists[i], k)
  }

  function RankVotes(lst: seq<Row>, k: int): (votes: seq<Vote>)
    requires !DividesByZero(lst, k)
    ensures |votes| == |lst|
  {
    seq(|lst|, i requires 0 <= i < |lst| => Vote(lst[i], Recip(k + i + 1)))
  }

  function RrfVotes(lists: seq<seq<Row>>, k: int): seq<Vote>
    requires NoZero(lists, k)
  {
    if lists == [] then []
    else RrfVotes(lists[..|lists| - 1], k) + RankVotes(lists[|lists| - 1], k)
  }

  /** _rrf_fuse; no result stands for the ZeroDivisionError. */
  method RrfFuse(lists: seq<seq<Row>>, k: int) returns (out: Option<seq<Row>>)
    ensures out.Some? <==> NoZero(lists, k)
    ensures out.Some? ==> Complete(TallyOf(RrfVotes(lists, k))) && out.value == Fused(TallyOf(RrfVotes(lists, k)))
  {
    var t := EMPTY;
    for i := 0 to |lists|
      invariant NoZero(lists[..i], k) && t == TallyOf(RrfVotes(lists[..i], k))
    {
      assert lists[..i + 1][..i] == lists[..i] && lists[..i + 1][i] == lists[i];
      var next := CastRanks(t, lists[i], k, RrfVotes(lists[..i], k));
      if next.None? {
        assert !NoZero(lists, k);
        return None;
      }
      t := next.value;
    }
    assert lists[..|lists|] == lists;
    TallyComplete(RrfVotes(lists, k));
    out := Some(Fused(t));
  }

  /** The inner loop, over one list. */
  method CastRanks(before: Tally, lst: seq<Row>, k: int, ghost cast: seq<Vote>) returns (after: Option<Tally>)
    requires before == TallyOf(cast)
    ensures after.Some? <==> !DividesByZero(lst, k)
    ensures after.Some? ==> after.value == TallyOf(cast + RankVotes(lst, k))
  {
    var t := before;
    assert cast + [] == cast;
    for j := 0 to |lst|
      invariant !DividesByZero(lst[..j], k) && t == TallyOf(cast + RankVotes(lst[..j], k))
    {
      if k + (j + 1) == 0 {
        return None;
      }
      RankVotesSnoc(lst, k, j);
      TallySnoc(cast, RankVotes(lst[..j], k), Vote(lst[j], Recip(k + (j + 1))));
      t := Cast(t, lst[j], Recip(k + (j + 1)));
    }
    assert lst[..|lst|] == lst;
    after := Some(t);
  }

  lemma RankVotesSnoc(lst: seq<Row>, k: int, j: nat)
    requires j < |lst| && !DividesByZero(lst[..j], k) && k + (j + 1) != 0
    ensures !DividesByZero(lst[..j + 1], k)
    ensures RankVotes(lst[..j + 1], k) == RankVotes(lst[..j], k) + [Vote(lst[j], Recip(k + (j + 1)))]
  {
  }

  lemma TallySnoc(a: seq<Vote>, b: seq<Vote>, v: Vote)
    ensures TallyOf(a + (b + [v])) == Cast(TallyOf(a + b), v.row, v.weight)
    ensures a + [] == a
  {
    assert (a + (b + [v]))[..|a + (b + [v])| - 1] == a + b;
  }

  /** The sum of 1/(k + rank) over all positions of all lists. */
  function RankMass(lists: seq<seq<Row>>, k: int): real
    requires NoZero(lists, k)
  {
    if lists == [] then 0.0
    else RankMass(lists[..|lists| - 1], k) + Harmonic(|lists[|lists| - 1]|, k)
  }

  /** 1/(k+1) + ... + 1/(k+n) */
  function Harmonic(n: nat, k: int): real
    requires !(1 <= -k <= n)
  {
    if n == 0 then 0.0 else Harmonic(n - 1, k) + Recip(k + n)
  }

  lemma {:induction false} RankVotesMass(lst: seq<Row>, k: int)
    requires !DividesByZero(lst, k)
    ensures AllWeights(RankVotes(lst, k)) == Harmonic(|lst|, k)
  {
    if lst != [] {
      RankVotesMass(lst[..|lst| - 1], k);
      assert RankVotes(lst, k)[..|lst| - 1] == RankVotes(lst[..|lst| - 1], k);
    }
  }

  lemma {:induction false} RrfMass(lists: seq<seq<Row>>, k: int)
    requires NoZero(lists, k)
    ensures AllWeights(RrfVotes(lists, k)) == RankMass(lists, k)
  {
    if lists != [] {
      var init, last := lists[..|lists| - 1], lists[|lists| - 1];
      RrfMass(init, k);
      RankVotesMass(last, k);
      WeightsConcat(RrfVotes(init, k), RankVotes(last, k));
    }
  }

  /** The fused scores add up to the reciprocal ranks of all list positions. */
  lemma RrfConserves(lists: seq<seq<Row>>, k: int)
    requires NoZero(lists, k)
    ensures Complete(TallyOf(RrfVotes(lists, k)))
    ensures SumKeys(Fused(TallyOf(RrfVotes(lists, k)))) == RankMass(lists, k)
  {
    FusionConserves(RrfVotes(lists, k));
    RrfMass(lists, k);
  }

  /** In every list where `b` occurs, `a` stands before it. */
  ghost predicate AheadEverywhere(lists: seq<seq<Row>>, a: Option<Id>, b: Option<Id>) {
    forall i | 0 <= i < |lists| :: AheadIn(lists[i], a, b)
  }

  ghost predicate AheadIn(lst: seq<Row>, a: Option<Id>, b: Option<Id>) {
    b in Ids(lst) ==> exists m, n :: Places(lst, a, b, m, n)
  }

  ghost predicate AllDistinct(lists: seq<seq<Row>>) {
    forall i | 0 <= i < |lists| :: DistinctIds(lists[i])
  }

  ghost predicate Occurs(lists: seq<seq<Row>>, id: Option<Id>) {
    exists i | 0 <= i < |lists| :: id in Ids(lists[i])
  }

  lemma Reciprocals(p: int, q: int)
    requires 0 < p < q
    ensures Recip(p) > Recip(q) > 0.0
  {
    InverseOrder(Recip(p), p as real, Recip(q), q as real);
  }

  lemma InverseOrder(x: real, p: real, y: real, q: real)
    requires 0.0 < p < q && x * p == 1.0 && y * q == 1.0
    ensures x > y > 0.0
  {
  }

  /** The share of a list in the score of an id that stands at place m. */
  lemma ShareAt(lst: seq<Row>, k: int, m: nat)
    requires m < |lst| && DistinctIds(lst) && !DividesByZero(lst, k)
    ensures Total(RankVotes(lst, k), lst[m].id) == Recip(k + m + 1)
  {
    SingleTotal(RankVotes(lst, k), m);
  }

  lemma ShareOfAbsent(lst: seq<Row>, k: int, id: Option<Id>)
    requires !DividesByZero(lst, k) && id !in Ids(lst)
    ensures Total(RankVotes(lst, k), id) == 0.0
  {
    assert forall i | 0 <= i < |lst| :: lst[i].id in Ids(lst);
    AbsentTotal(RankVotes(lst, k), id);
  }

  lemma ShareDominates(lst: seq<Row>, k: nat, a: Option<Id>, b: Option<Id>)
    requires DistinctIds(lst) && AheadIn(lst, a, b)
    ensures Total(RankVotes(lst, k), a) >= Total(RankVotes(lst, k), b)
    ensures b in Ids(lst) ==> Total(RankVotes(lst, k), a) > Total(RankVotes(lst, k), b)
  {
    if b in Ids(lst) {
      var m, n :| Places(lst, a, b, m, n);
      ShareAt(lst, k, m);
      ShareAt(lst, k, n);
      Reciprocals(k + m + 1, k + n + 1);
    } else {
      ShareOfAbsent(lst, k, b);
      if a in Ids(lst) {
        var m :| 0 <= m < |lst| && lst[m].id == a;
        ShareAt(lst, k, m);
        Reciprocals(k + m + 1, k + m + 2);
      } else {
        ShareOfAbsent(lst, k, a);
      }
    }
  }

  lemma {:induction false} RrfScoreDominates(lists: seq<seq<Row>>, k: nat, a: Option<Id>, b: Option<Id>)
    requires AllDistinct(lists) && AheadEverywhere(lists, a, b)
    ensures Total(RrfVotes(lists, k), a) >= Total(RrfVotes(lists, k), b)
    ensures Occurs(lists, b) ==> Total(RrfVotes(lists, k), a) > Total(RrfVotes(lists, k), b)
  {
    if lists != [] {
      var init, last := lists[..|lists| - 1], lists[|lists| - 1];
      RrfScoreDominates(init, k, a, b);
      ShareDominates(last, k, a, b);
      TotalConcat(RrfVotes(init, k), RankVotes(last, k), a);
      TotalConcat(RrfVotes(init, k), RankVotes(last, k), b);
      assert Occurs(lists, b) ==> Occurs(init, b) || b in Ids(last);
    }
  }

  lemma {:induction false} OccursVoted(lists: seq<seq<Row>>, k: int, id: Option<Id>)
    requires NoZero(lists, k)
    ensures Occurs(lists, id) <==> Voted(RrfVotes(lists, k), id)
  {
    if lists != [] {
      var init, last := lists[..|lists| - 1], lists[|lists| - 1];
      OccursVoted(init, k, id);
      var p, q := RrfVotes(init, k), RankVotes(last, k);
      assert Voted(p + q, id) <==> Voted(p, id) || id in Ids(last) by {
        VotedConcat(p, q, id);
        RankVoted(last, k, id);
      }
      assert Occurs(lists, id) <==> Occurs(init, id) || id in Ids(last) by {
        if i :| 0 <= i < |init| && id in Ids(init[i]) {
          assert id in Ids(lists[i]);
        }
      }
    }
  }

  lemma RankVoted(lst: seq<Row>, k: int, id: Option<Id>)
    requires !DividesByZero(lst, k)
    ensures Voted(RankVotes(lst, k), id) <==> id in Ids(lst)
  {
    var q := RankVotes(lst, k);
    assert forall i | 0 <= i < |lst| :: q[i].row == lst[i] && lst[i] in lst;
    if id in Ids(lst) {
      var r :| r in lst && r.id == id;
      var i :| 0 <= i < |lst| && lst[i] == r;
      assert q[i].row.id == id;
    }
  }

  /** Dominance: with duplicate-free lists and k >= 0, an id that stands ahead of
      another in every list where the latter occurs comes strictly earlier. */
  lemma RrfDominance(lists: seq<seq<Row>>, k: nat, a: Option<Id>, b: Option<Id>)
    requires AllDistinct(lists) && AheadEverywhere(lists, a, b) && Occurs(lists, b)
    ensures Complete(TallyOf(RrfVotes(lists, k))) && ComesFirst(Fused(TallyOf(RrfVotes(lists, k))), a, b)
  {
    RrfScoreDominates(lists, k, a, b);
    OccursVoted(lists, k, b);
    var i :| 0 <= i < |lists| && b in Ids(lists[i]);
    assert AheadIn(lists[i], a, b);
    assert a in Ids(lists[i]) by {
      var m, n :| Places(lists[i], a, b, m, n);
      assert lists[i][m] in lists[i];
    }
    OccursVoted(lists, k, a);
    HigherComesFirst(RrfVotes(lists, k), a, b);
  }

  /** The law for one k, over all inputs. */
  ghost predicate DominanceHolds(k: int) {
    forall lists, a, b | AllDistinct(lists) && AheadEverywhere(lists, a, b) && Occurs(lists, b) && NoZero(lists, k) ::
      Complete(TallyOf(RrfVotes(lists, k))) && ComesFirst(Fused(TallyOf(RrfVotes(lists, k))), a, b)
  }

  /** A request may name a negative k, and then votes are negative.  The law holds
      exactly for k >= -2; for -1 and -2 every list of two rows raises. */
  lemma RrfDominanceIff(k: int)
    ensures DominanceHolds(k) <==> k >= -2
  {
    if k >= -2 {
      forall lists, a, b | AllDistinct(lists) && AheadEverywhere(lists, a, b) && Occurs(lists, b) && NoZero(lists, k)
        ensures Complete(TallyOf(RrfVotes(lists, k))) && ComesFirst(Fused(TallyOf(RrfVotes(lists, k))), a, b)
      {
        var i :| 0 <= i < |lists| && b in Ids(lists[i]);
        assert AheadIn(lists[i], a, b) && !DividesByZero(lists[i], k);
        assert k >= 0;
        RrfDominance(lists, k, a, b);
      }
    } else {
      NegativeKBreaksDominance(k);
    }
  }

  lemma NegativeKBreaksDominance(k: int)
    requires k <= -3
    ensures !DominanceHolds(k)
  {
    hide Recip, TallyOf, Fused, RrfVotes, Total;
    var a, b := Row(Some(IntId(1)), None, 0), Row(Some(IntId(2)), None, 0);
    var two, one := [a, b], [a];
    var lists := [two, one, one];
    assert NoZero(lists, k) && AllDistinct(lists);
    assert AheadEverywhere(lists, a.id, b.id) by {
      assert Places(two, a.id, b.id, 0, 1);
    }
    assert Occurs(lists, b.id) by {
      assert lists[0] == two && b in two;
    }
    var votes := RrfVotes(lists, k);
    var x, y := Recip(k + 1), Recip(k + 2);
    CounterVotes(a, b, k);
    assert Total(votes, b.id) == y && Total(votes, a.id) == x + x + x;
    ThreeShares(k);
    OccursVoted(lists, k, a.id);
    OccursVoted(lists, k, b.id);
    assert lists[0] == two && a in two;
    assert Occurs(lists, a.id);
    HigherComesFirst(votes, b.id, a.id);
    FusedMeaning(votes);
    OneOrder(Fused(TallyOf(votes)), b.id, a.id);
  }

  lemma ThreeShares(k: int)
    requires k <= -3
    ensures Recip(k + 2) > Recip(k + 1) + Recip(k + 1) + Recip(k + 1)
  {
  }

  lemma CounterVotes(a: Row, b: Row, k: int)
    requires k <= -3 && a.id != b.id
    ensures var lists := [[a, b], [a], [a]];
            var x, y := Recip(k + 1), Recip(k + 2);
            && NoZero(lists, k)
            && Total(RrfVotes(lists, k), a.id) == x + x + x && Total(RrfVotes(lists, k), b.id) == y
  {
    var x, y := Recip(k + 1), Recip(k + 2);
    var lists := [[a, b], [a], [a]];
    assert lists[..2] == [[a, b], [a]] && lists[..2][..1] == [[a, b]] && [[a, b]][..0] == [];
    assert RankVotes([a, b], k) == [Vote(a, x), Vote(b, y)] && RankVotes([a], k) == [Vote(a, x)];
    assert RrfVotes([[a, b]], k) == [] + [Vote(a, x), Vote(b, y)];
    assert RrfVotes(lists[..2], k) == RrfVotes([[a, b]], k) + [Vote(a, x)];
    var v1, v2 := [Vote(a, x), Vote(b, y)], [Vote(a, x)];
    assert RrfVotes(lists, k) == v1 + v2 + v2;
    assert v1[..1] == [Vote(a, x)] && v2[..0] == [];
    forall id ensures Total(v1 + v2 + v2, id) == Total(v1, id) + Total(v2, id) + Total(v2, id) {
      TotalConcat(v1 + v2, v2, id);
      TotalConcat(v1, v2, id);
    }
  }

  /** Fusing one duplicate-free list keeps its order, whatever k does not raise. */
  lemma SingleListKeepsOrder(lst: seq<Row>, k: int)
    requires DistinctIds(lst) && !DividesByZero(lst, k)
    ensures var votes := RrfVotes([lst], k);
            && Complete(TallyOf(votes)) && Fused(TallyOf(votes)) == Rescored(lst, k)
  {
    RrfOne(lst, k);
    EntriesRescored(lst, k);
    RescoredSorted(lst, k);
    SortFixesSorted(Rescored(lst, k));
  }

  lemma RrfOne(lst: seq<Row>, k: int)
    requires !DividesByZero(lst, k)
    ensures RrfVotes([lst], k) == RankVotes(lst, k)
  {
  }

  lemma EntriesRescored(lst: seq<Row>, k: int)
    requires DistinctIds(lst) && !DividesByZero(lst, k)
    ensures var t := TallyOf(RankVotes(lst, k)); Complete(t) && Entries(t) == Rescored(lst, k)
  {
    var votes := RankVotes(lst, k);
    TallyComplete(votes);
    DistinctVotesOrder(votes);
    forall i | 0 <= i < |lst| ensures Entries(TallyOf(votes))[i] == Rescored(lst, k)[i] {
      DistinctVotesEntry(votes, i);
    }
  }

  function Rescored(lst: seq<Row>, k: int): seq<Row>
    requires !DividesByZero(lst, k)
  {
    seq(|lst|, i requires 0 <= i < |lst| => lst[i].(score := Some(Recip(k + i + 1))))
  }

  lemma RescoredSorted(lst: seq<Row>, k: int)
    requires !DividesByZero(lst, k)
    ensures Sorted(true, Rescored(lst, k))
  {
    forall i, j | 0 <= i < j < |lst| ensures Before(true, Rescored(lst, k)[i], Rescored(lst, k)[j]) {
      SameSignReciprocals(k + i + 1, k + j + 1, k, |lst|);
    }
  }

  lemma SameSignReciprocals(p: int, q: int, k: int, n: nat)
    requires k < p < q <= k + n && !(1 <= -k <= n)
    ensures Recip(p) >= Recip(q)
  {
    if p > 0 {
      Reciprocals(p, q);
    } else {
      Reciprocals(-q, -p);
      assert Recip(p) == -(Recip(-p)) && Recip(q) == -(Recip(-q));
    }
  }

  // ---------- the fused scores in numbers ----------

  ghost function RrfOut(lists: seq<seq<Row>>, k: int): seq<Row>
    requires NoZero(lists, k)
  {
    TallyComplete(RrfVotes(lists, k));
    Fused(TallyOf(RrfVotes(lists, k)))
  }

  lemma RrfScore(lists: seq<seq<Row>>, k: int, id: Option<Id>)
    requires NoZero(lists, k)
    ensures ScoreIn(RrfOut(lists, k), id) == Total(RrfVotes(lists, k), id)
  {
    hide RrfVotes, Fused, TallyOf, Total, ScoreIn, Complete;
    ScoreIsTotal(RrfVotes(lists, k), id);
  }

  lemma RecipTimes(n: int)
    requires n != 0
    ensures Recip(n) * n as real == 1.0
  {
  }

  /** In one duplicate-free list the score of the id at rank n, times k + n, is 1. */
  lemma RrfOneList(lst: seq<Row>, k: int, n: nat)
    requires !DividesByZero(lst, k) && DistinctIds(lst) && 1 <= n <= |lst|
    ensures ScoreIn(RrfOut([lst], k), lst[n - 1].id) * (k + n) as real == 1.0
  {
    hide RrfOut, RrfVotes, RankVotes, Total, ScoreIn, Recip;
    RrfOne(lst, k);
    RrfScore([lst], k, lst[n - 1].id);
    ShareAt(lst, k, n - 1);
    RecipTimes(k + n);
  }

  /** One more list adds its own scores to those of the others; an id that is not
      in it gets nothing. */
  lemma RrfAdds(lists: seq<seq<Row>>, lst: seq<Row>, k: int, id: Option<Id>)
    requires NoZero(lists, k) && !DividesByZero(lst, k)
    ensures NoZero(lists + [lst], k) && NoZero([lst], k)
    ensures ScoreIn(RrfOut(lists + [lst], k), id) == ScoreIn(RrfOut(lists, k), id) + ScoreIn(RrfOut([lst], k), id)
    ensures id !in Ids(lst) ==> ScoreIn(RrfOut([lst], k), id) == 0.0
    ensures ScoreIn(RrfOut([], k), id) == 0.0
  {
    hide RrfOut, RankVotes, ScoreIn;
    RrfOne(lst, k);
    assert (lists + [lst])[..|lists|] == lists;
    TotalConcat(RrfVotes(lists, k), RankVotes(lst, k), id);
    RrfScore(lists + [lst], k, id);
    RrfScore(lists, k, id);
    RrfScore([lst], k, id);
    RrfScore([], k, id);
    if id !in Ids(lst) {
      ShareOfAbsent(lst, k, id);
    }
  }
}
