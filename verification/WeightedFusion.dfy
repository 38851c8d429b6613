/** Weighted fusion: a row votes for its id with its score, normalised by the
    largest score of its list and multiplied by the weight of the list. */
module WeightedFusion {
  import opened Wrappers
  import opened Search
  import opened Fusion

  function Abs(x: real): real {
    if x < 0.0 then -x else x
  }

  function Max(x: real, y: real): real {
    if x < y then y else x
  }

  function MaxAbs(lst: seq<Row>): real
    requires lst != []
  {
    var last := Abs(Key(lst[|lst| - 1]));
    if |lst| == 1 then last else Max(MaxAbs(lst[..|lst| - 1]), last)
  }

  lemma {:induction false} MaxAbsBounds(lst: seq<Row>)
    requires lst != []
    ensures forall i | 0 <= i < |lst| :: Abs(Key(lst[i])) <= MaxAbs(lst)
    ensures exists i | 0 <= i < |lst| :: Abs(Key(lst[i])) == MaxAbs(lst)
  {
    var l := |lst| - 1;
    if l > 0 {
      MaxAbsBounds(lst[..l]);
      assert forall i | 0 <= i < l :: lst[..l][i] == lst[i];
      var i :| 0 <= i < l && Abs(Key(lst[..l][i])) == MaxAbs(lst[..l]);
      assert lst[..l][i] == lst[i];
    }
    assert Abs(Key(lst[l])) == Abs(Key(lst[|lst| - 1]));
  }

  /** `x / (m or 1.0)` */
  function Quotient(x: real, m: real): real {
    if m == 0.0 then x / 1.0 else x / m
  }

  function Share(r: Row, m: real, w: real): real {
    w * Quotient(Key(r), m)
  }

  function ListVotes(lst: seq<Row>, w: real): seq<Vote> {
    if lst == [] then []
    else seq(|lst|, j requires 0 <= j < |lst| => Vote(lst[j], Share(lst[j], MaxAbs(lst), w)))
  }

  /** Lists without a weight, and weights without a list, are dropped. */
  function Pairs(lists: seq<seq<Row>>, weights: seq<real>): (n: nat)
    ensures n <= |lists| && n <= |weights| && (n == |lists| || n == |weights|)
  {
    if |lists| < |weights| then |lists| else |weights|
  }

  function Blocks(lists: seq<seq<Row>>, weights: seq<real>): seq<seq<Vote>> {
    seq(Pairs(lists, weights), i requires 0 <= i < Pairs(lists, weights) => ListVotes(lists[i], weights[i]))
  }

  function WeightedVotes(lists: seq<seq<Row>>, weights: seq<real>): seq<Vote> {
    Flat(Blocks(lists, weights))
  }

  /** _weighted_fuse */
  method WeightedFuse(lists: seq<seq<Row>>, weights: seq<real>) returns (out: seq<Row>)
    ensures Complete(TallyOf(WeightedVotes(lists, weights))) && out == Fused(TallyOf(WeightedVotes(lists, weights)))
  {
    var t := EMPTY;
    ghost var blocks := Blocks(lists, weights);
    for i := 0 to Pairs(lists, weights)
      invariant t == TallyOf(Flat(blocks[..i]))
    {
      assert blocks[..i + 1][..i] == blocks[..i] && blocks[..i + 1][i] == ListVotes(lists[i], weights[i]);
      var lst := lists[i];
      if lst != [] {
        t := CastShares(t, lst, weights[i], Flat(blocks[..i]));
      } else {
        assert Flat(blocks[..i]) + [] == Flat(blocks[..i]);
      }
    }
    assert blocks[..|blocks|] == blocks;
    TallyComplete(WeightedVotes(lists, weights));
    out := Fused(t);
  }

  /** The inner loop, over one list. */
  method CastShares(before: Tally, lst: seq<Row>, w: real, ghost cast: seq<Vote>) returns (t: Tally)
    requires before == TallyOf(cast) && lst != []
    ensures t == TallyOf(cast + ListVotes(lst, w))
  {
    var m := MaxAbs(lst);
    t := before;
    ghost var votes := ListVotes(lst, w);
    assert cast + votes[..0] == cast;
    for j := 0 to |lst|
      invariant t == TallyOf(cast + votes[..j])
    {
      CastNext(cast, votes, j);
      t := Cast(t, lst[j], Share(lst[j], m, w));
    }
    assert votes[..|lst|] == votes;
  }

  lemma CastNext(a: seq<Vote>, b: seq<Vote>, j: nat)
    requires j < |b|
    ensures TallyOf(a + b[..j + 1]) == Cast(TallyOf(a + b[..j]), b[j].row, b[j].weight)
  {
    var s := a + b[..j + 1];
    assert s[..|s| - 1] == a + b[..j] && s[|s| - 1] == b[j];
  }

  // ---------- the bound ----------

  /** The absolute weights of the lists in which an id occurs. */
  ghost function WeightsOn(lists: seq<seq<Row>>, weights: seq<real>, id: Option<Id>): seq<real> {
    seq(Pairs(lists, weights), i requires 0 <= i < Pairs(lists, weights) => if id in Ids(lists[i]) then Abs(weights[i]) else 0.0)
  }

  lemma ShareBound(r: Row, m: real, w: real)
    requires Abs(Key(r)) <= m
    ensures -Abs(w) <= Share(r, m, w) <= Abs(w)
  {
    QuotientBound(Key(r), m);
    TimesBound(w, Quotient(Key(r), m));
  }

  lemma QuotientBound(x: real, m: real)
    requires Abs(x) <= m
    ensures -1.0 <= Quotient(x, m) <= 1.0
  {
    if m > 0.0 {
      var q := x / m;
      assert q * m == x;
      Product(q - 1.0, m);
      Product(-1.0 - q, m);
    }
  }

  lemma TimesBound(w: real, q: real)
    requires -1.0 <= q <= 1.0
    ensures -Abs(w) <= w * q <= Abs(w)
  {
    Product(Abs(w), 1.0 - q);
    Product(Abs(w), 1.0 + q);
  }

  lemma Product(a: real, b: real)
    ensures a >= 0.0 && b >= 0.0 ==> a * b >= 0.0
    ensures a > 0.0 && b > 0.0 ==> a * b > 0.0
    ensures (-a) * b == -(a * b)
  {
  }

  lemma VoteBound(lst: seq<Row>, w: real, i: nat)
    requires i < |lst|
    ensures -Abs(w) <= ListVotes(lst, w)[i].weight <= Abs(w)
  {
    MaxAbsBounds(lst);
    ShareBound(lst[i], MaxAbs(lst), w);
  }

  lemma ListBound(lst: seq<Row>, w: real, id: Option<Id>)
    requires DistinctIds(lst)
    ensures var b := if id in Ids(lst) then Abs(w) else 0.0;
            -b <= Total(ListVotes(lst, w), id) <= b
  {
    var votes := ListVotes(lst, w);
    if id in Ids(lst) {
      var r :| r in lst && r.id == id;
      var i :| 0 <= i < |lst| && lst[i] == r;
      assert votes[i].row == r;
      SingleTotal(votes, i);
      VoteBound(lst, w, i);
    } else {
      assert forall i | 0 <= i < |lst| :: lst[i].id in Ids(lst);
      AbsentTotal(votes, id);
    }
  }

  lemma TotalBound(lists: seq<seq<Row>>, weights: seq<real>, id: Option<Id>)
    requires forall i | 0 <= i < Pairs(lists, weights) :: DistinctIds(lists[i])
    ensures Abs(Total(WeightedVotes(lists, weights), id)) <= SumOf(WeightsOn(lists, weights, id))
  {
    var blocks, bounds := Blocks(lists, weights), WeightsOn(lists, weights, id);
    forall i | 0 <= i < |blocks| ensures -bounds[i] <= Total(blocks[i], id) <= bounds[i] {
      ListBound(lists[i], weights[i], id);
    }
    FlatBound(blocks, bounds, id);
  }

  /** With duplicate-free lists no fused score exceeds, in absolute value, the
      absolute weights of the lists that contain its id. */
  lemma WeightedScoresBounded(lists: seq<seq<Row>>, weights: seq<real>)
    requires forall i | 0 <= i < Pairs(lists, weights) :: DistinctIds(lists[i])
    ensures Complete(TallyOf(WeightedVotes(lists, weights)))
    ensures forall r <- Fused(TallyOf(WeightedVotes(lists, weights))) :: Abs(Key(r)) <= SumOf(WeightsOn(lists, weights, r.id))
  {
    FusedMeaning(WeightedVotes(lists, weights));
    forall r | r in Fused(TallyOf(WeightedVotes(lists, weights))) ensures Abs(Key(r)) <= SumOf(WeightsOn(lists, weights, r.id)) {
      TotalBound(lists, weights, r.id);
    }
  }

  // ---------- the scale of a list does not matter ----------

  /** What is used of multiplying by a positive constant. */
  ghost predicate Rescaling(f: real -> real) {
    && f(0.0) == 0.0
    && (forall x :: Abs(f(x)) == f(Abs(x)))
    && (forall x, y | x <= y :: f(x) <= f(y))
    && (forall x, m | Abs(x) <= m :: Quotient(f(x), f(m)) == Quotient(x, m))
  }

  function Times(c: real): real -> real {
    x => c * x
  }

  lemma TimesRescales(c: real)
    requires c > 0.0
    ensures Rescaling(Times(c))
  {
    hide Quotient, Times;
    assert Times(c)(0.0) == 0.0 by {
      ScaledQuotient(0.0, 0.0, c);
    }
    forall x ensures Abs(Times(c)(x)) == Times(c)(Abs(x)) {
      ScaledAbs(x, c);
    }
    forall x, y | x <= y ensures Times(c)(x) <= Times(c)(y) {
      ScaledOrder(x, y, c);
    }
    forall x, m | Abs(x) <= m ensures Quotient(Times(c)(x), Times(c)(m)) == Quotient(x, m) {
      ScaledQuotient(x, m, c);
    }
  }

  lemma ScaledAbs(x: real, c: real)
    requires c > 0.0
    ensures Abs(Times(c)(x)) == Times(c)(Abs(x))
  {
  }

  lemma ScaledOrder(x: real, y: real, c: real)
    requires c > 0.0 && x <= y
    ensures Times(c)(x) <= Times(c)(y)
  {
  }

  lemma ScaledQuotient(x: real, m: real, c: real)
    requires c > 0.0 && Abs(x) <= m
    ensures Quotient(Times(c)(x), Times(c)(m)) == Quotient(x, m)
    ensures Times(c)(0.0) == 0.0
  {
  }

  function ScaledRow(r: Row, c: real): Row {
    r.(score := if r.score.Some? then Some(Times(c)(r.score.value)) else None)
  }

  function Scaled(lst: seq<Row>, c: real): seq<Row> {
    seq(|lst|, i requires 0 <= i < |lst| => ScaledRow(lst[i], c))
  }

  lemma ScaledMax(lst: seq<Row>, c: real)
    requires lst != [] && c > 0.0
    ensures MaxAbs(Scaled(lst, c)) == Times(c)(MaxAbs(lst))
  {
    hide Times, Quotient;
    TimesRescales(c);
    var f, scaled := Times(c), Scaled(lst, c);
    assert forall i | 0 <= i < |lst| :: Key(scaled[i]) == f(Key(lst[i])) && Abs(Key(scaled[i])) == f(Abs(Key(lst[i])));
    MaxAbsBounds(lst);
    MaxAbsBounds(scaled);
    var i :| 0 <= i < |lst| && Abs(Key(lst[i])) == MaxAbs(lst);
    var j :| 0 <= j < |lst| && Abs(Key(scaled[j])) == MaxAbs(scaled);
    assert f(Abs(Key(lst[j]))) <= f(MaxAbs(lst));
  }

  /** Scaling changes no vote but for the score of its row. */
  lemma ScaledVotes(lst: seq<Row>, w: real, c: real)
    requires c > 0.0
    ensures SameButScores(ListVotes(Scaled(lst, c), w), ListVotes(lst, w))
  {
    hide Share, Times;
    forall i | 0 <= i < |lst| ensures ListVotes(Scaled(lst, c), w)[i].weight == ListVotes(lst, w)[i].weight {
      ScaledMax(lst, c);
      MaxAbsBounds(lst);
      ScaledShare(lst[i], MaxAbs(lst), w, c);
    }
  }

  lemma ScaledShare(r: Row, m: real, w: real, c: real)
    requires c > 0.0 && Abs(Key(r)) <= m
    ensures Share(ScaledRow(r, c), Times(c)(m), w) == Share(r, m, w)
  {
  }

  /** Multiplying all the scores of any one list by a positive constant changes
      nothing in the fused list. */
  lemma WeightedIgnoresScale(lists: seq<seq<Row>>, weights: seq<real>, m: nat, c: real)
    requires m < |lists| && c > 0.0
    ensures var scaled := lists[m := Scaled(lists[m], c)];
            && Complete(TallyOf(WeightedVotes(scaled, weights))) && Complete(TallyOf(WeightedVotes(lists, weights)))
            && Fused(TallyOf(WeightedVotes(scaled, weights))) == Fused(TallyOf(WeightedVotes(lists, weights)))
  {
    var scaled := lists[m := Scaled(lists[m], c)];
    var a, b := Blocks(scaled, weights), Blocks(lists, weights);
    forall i | 0 <= i < |a| ensures SameButScores(a[i], b[i]) {
      if i == m {
        ScaledVotes(lists[m], weights[m], c);
      }
    }
    FlatSame(a, b);
    FusedSame(WeightedVotes(scaled, weights), WeightedVotes(lists, weights));
  }

  /** The output is one row for every id of the lists that have a weight, best score first. */
  lemma WeightedIsSortedPermutation(lists: seq<seq<Row>>, weights: seq<real>)
    ensures Complete(TallyOf(WeightedVotes(lists, weights)))
    ensures var out := Fused(TallyOf(WeightedVotes(lists, weights)));
            && Sorted(true, out) && DistinctIds(out)
            && forall id :: id in Ids(out) <==> exists i | 0 <= i < Pairs(lists, weights) :: id in Ids(lists[i])
  {
    FusedMeaning(WeightedVotes(lists, weights));
    var out, blocks := Fused(TallyOf(WeightedVotes(lists, weights))), Blocks(lists, weights);
    forall id ensures id in Ids(out) <==> exists i | 0 <= i < Pairs(lists, weights) :: id in Ids(lists[i]) {
      FlatVoted(blocks, id);
      forall i | 0 <= i < |blocks| ensures VotedIn(blocks, id, i) <==> id in Ids(lists[i]) {
        ListVoted(lists[i], weights[i], id);
      }
    }
  }

  lemma ListVoted(lst: seq<Row>, w: real, id: Option<Id>)
    ensures Voted(ListVotes(lst, w), id) <==> id in Ids(lst)
  {
    var q := ListVotes(lst, w);
    assert forall i | 0 <= i < |lst| :: q[i].row == lst[i] && lst[i] in lst;
    if id in Ids(lst) {
      var r :| r in lst && r.id == id;
      var i :| 0 <= i < |lst| && lst[i] == r;
      assert q[i].row.id == id;
    }
  }

  // ---------- the fused scores in numbers ----------

  ghost function WeightedOut(lists: seq<seq<Row>>, weights: seq<real>): seq<Row> {
    TallyComplete(WeightedVotes(lists, weights));
    Fused(TallyOf(WeightedVotes(lists, weights)))
  }

  /** `m` is the largest absolute score of the list. */
  ghost predicate Largest(lst: seq<Row>, m: real) {
    && (forall r <- lst :: -m <= r.score.UnwrapOr(0.0) <= m)
    && exists r <- lst :: r.score.UnwrapOr(0.0) == m || r.score.UnwrapOr(0.0) == -m
  }

  lemma LargestIs(lst: seq<Row>, m: real)
    requires lst != [] && Largest(lst, m)
    ensures MaxAbs(lst) == m
  {
    MaxAbsBounds(lst);
    var i :| 0 <= i < |lst| && Abs(Key(lst[i])) == MaxAbs(lst);
    assert lst[i] in lst;
    var r :| r in lst && (Key(r) == m || Key(r) == -m);
    var j :| 0 <= j < |lst| && lst[j] == r;
  }

  lemma ListTotal(lst: seq<Row>, w: real, i: nat)
    requires i < |lst| && DistinctIds(lst)
    ensures Total(ListVotes(lst, w), lst[i].id) == Share(lst[i], MaxAbs(lst), w)
  {
    SingleTotal(ListVotes(lst, w), i);
  }

  lemma AbsentFromList(lst: seq<Row>, w: real, id: Option<Id>)
    requires id !in Ids(lst)
    ensures Total(ListVotes(lst, w), id) == 0.0
  {
    ListVoted(lst, w, id);
    AbsentTotal(ListVotes(lst, w), id);
  }

  lemma OneBlock(lst: seq<Row>, w: real)
    ensures WeightedVotes([lst], [w]) == ListVotes(lst, w)
  {
    var blocks := Blocks([lst], [w]);
    assert blocks == [ListVotes(lst, w)] && blocks[..0] == [];
    assert Flat(blocks) == [] + ListVotes(lst, w);
  }

  lemma WeightedScore(lists: seq<seq<Row>>, weights: seq<real>, id: Option<Id>)
    ensures ScoreIn(WeightedOut(lists, weights), id) == Total(WeightedVotes(lists, weights), id)
  {
    hide WeightedVotes, Fused, TallyOf, Total, ScoreIn, Complete;
    ScoreIsTotal(WeightedVotes(lists, weights), id);
  }

  lemma ShareIs(r: Row, m: real, w: real)
    ensures m > 0.0 ==> Share(r, m, w) == w * (r.score.UnwrapOr(0.0) / m)
    ensures r.score.UnwrapOr(0.0) == 0.0 ==> Share(r, m, w) == 0.0
  {
  }

  /** In one duplicate-free list the fused score of a row is its score, divided by
      the largest absolute score, times the weight; it is 0 where all scores are. */
  lemma WeightedOneList(lst: seq<Row>, w: real, m: real, i: nat)
    requires DistinctIds(lst) && i < |lst| && Largest(lst, m)
    ensures var score := ScoreIn(WeightedOut([lst], [w]), lst[i].id);
            if m == 0.0 then score == 0.0 else score == w * (lst[i].score.UnwrapOr(0.0) / m)
  {
    hide WeightedOut, WeightedVotes, ListVotes, Total, ScoreIn, Share, MaxAbs;
    OneBlock(lst, w);
    WeightedScore([lst], [w], lst[i].id);
    ListTotal(lst, w, i);
    LargestIs(lst, m);
    assert lst[i] in lst;
    ShareIs(lst[i], m, w);
  }

  /** One more list with its weight adds its own scores to those of the others;
      an id that is not in it gets nothing. */
  lemma WeightedAdds(lists: seq<seq<Row>>, weights: seq<real>, lst: seq<Row>, w: real, id: Option<Id>)
    requires |lists| == |weights|
    ensures ScoreIn(WeightedOut(lists + [lst], weights + [w]), id)
         == ScoreIn(WeightedOut(lists, weights), id) + ScoreIn(WeightedOut([lst], [w]), id)
    ensures id !in Ids(lst) ==> ScoreIn(WeightedOut([lst], [w]), id) == 0.0
    ensures ScoreIn(WeightedOut([], []), id) == 0.0
  {
    hide WeightedOut, ListVotes, Total, ScoreIn;
    OneBlock(lst, w);
    BlocksSnoc(lists, weights, lst, w);
    TotalConcat(WeightedVotes(lists, weights), ListVotes(lst, w), id);
    WeightedScore(lists + [lst], weights + [w], id);
    WeightedScore(lists, weights, id);
    WeightedScore([lst], [w], id);
    WeightedScore([], [], id);
    assert Total([], id) == 0.0 by {
      AbsentTotal([], id);
    }
    if id !in Ids(lst) {
      AbsentFromList(lst, w, id);
    }
  }

  lemma BlocksSnoc(lists: seq<seq<Row>>, weights: seq<real>, lst: seq<Row>, w: real)
    requires |lists| == |weights|
    ensures WeightedVotes(lists + [lst], weights + [w]) == WeightedVotes(lists, weights) + ListVotes(lst, w)
  {
    hide ListVotes;
    var blocks := Blocks(lists + [lst], weights + [w]);
    assert blocks[..|lists|] == Blocks(lists, weights) && blocks[|lists|] == ListVotes(lst, w);
  }

  /** Lists and weights without a partner count for nothing. */
  lemma WeightedPairsOff(lists: seq<seq<Row>>, weights: seq<real>)
    ensures var n := if |lists| < |weights| then |lists| else |weights|;
            WeightedOut(lists, weights) == WeightedOut(lists[..n], weights[..n])
  {
    var n := Pairs(lists, weights);
    assert Blocks(lists, weights) == Blocks(lists[..n], weights[..n]);
  }

  // ---------- dominance ----------

  /** The list scores `a` higher than `b`; absence is as good as a score of 0. */
  ghost predicate Favours(lst: seq<Row>, a: Option<Id>, b: Option<Id>) {
    if a in Ids(lst) then
      if b in Ids(lst) then exists x, y :: ScoresAbove(lst, a, b, x, y)
      else exists x <- lst :: x.id == a && x.score.UnwrapOr(0.0) > 0.0
    else exists y <- lst :: y.id == b && y.score.UnwrapOr(0.0) < 0.0
  }

  ghost predicate ScoresAbove(lst: seq<Row>, a: Option<Id>, b: Option<Id>, x: Row, y: Row) {
    x in lst && y in lst && x.id == a && y.id == b && x.score.UnwrapOr(0.0) > y.score.UnwrapOr(0.0)
  }

  ghost predicate InNeither(lst: seq<Row>, a: Option<Id>, b: Option<Id>) {
    a !in Ids(lst) && b !in Ids(lst)
  }

  lemma ShareOrder(x: Row, y: Row, m: real, w: real)
    requires w > 0.0 && Abs(Key(x)) <= m && Abs(Key(y)) <= m && Key(x) > Key(y)
    ensures Share(x, m, w) > Share(y, m, w)
  {
    QuotientOrder(Key(x), Key(y), m);
    TimesOrder(Quotient(Key(x), m), Quotient(Key(y), m), w);
  }

  lemma QuotientOrder(x: real, y: real, m: real)
    requires Abs(x) <= m && Abs(y) <= m && x > y
    ensures Quotient(x, m) > Quotient(y, m)
  {
  }

  lemma TimesOrder(x: real, y: real, w: real)
    requires w > 0.0 && x > y
    ensures w * x > w * y
  {
  }

  lemma ListFavours(lst: seq<Row>, w: real, a: Option<Id>, b: Option<Id>)
    requires w > 0.0 && DistinctIds(lst) && Favours(lst, a, b)
    ensures Total(ListVotes(lst, w), a) > Total(ListVotes(lst, w), b)
  {
    hide ListVotes, Share, Total;
    var nil := Row(None, Some(0.0), 0);
    if a in Ids(lst) && b in Ids(lst) {
      var x, y :| ScoresAbove(lst, a, b, x, y);
      var i :| 0 <= i < |lst| && lst[i] == x;
      var j :| 0 <= j < |lst| && lst[j] == y;
      MaxAbsBounds(lst);
      ListTotal(lst, w, i);
      ListTotal(lst, w, j);
      ShareOrder(x, y, MaxAbs(lst), w);
    } else if a in Ids(lst) {
      var x :| x in lst && x.id == a && Key(x) > 0.0;
      var i :| 0 <= i < |lst| && lst[i] == x;
      MaxAbsBounds(lst);
      ListTotal(lst, w, i);
      AbsentFromList(lst, w, b);
      ShareOrder(x, nil, MaxAbs(lst), w);
      ShareOfZero(nil, MaxAbs(lst), w);
    } else {
      var y :| y in lst && y.id == b && Key(y) < 0.0;
      var j :| 0 <= j < |lst| && lst[j] == y;
      MaxAbsBounds(lst);
      ListTotal(lst, w, j);
      AbsentFromList(lst, w, a);
      ShareOrder(nil, y, MaxAbs(lst), w);
      ShareOfZero(nil, MaxAbs(lst), w);
    }
  }

  lemma ShareOfZero(r: Row, m: real, w: real)
    requires Key(r) == 0.0
    ensures Share(r, m, w) == 0.0
  {
  }

  /** Dominance: with positive weights and duplicate-free lists, an id that every
      list with either of the two scores higher comes strictly earlier. */
  lemma WeightedDominance(lists: seq<seq<Row>>, weights: seq<real>, a: Option<Id>, b: Option<Id>)
    requires |lists| == |weights| && forall i | 0 <= i < |lists| :: weights[i] > 0.0 && DistinctIds(lists[i])
    requires forall i | 0 <= i < |lists| :: InNeither(lists[i], a, b) || Favours(lists[i], a, b)
    requires (exists i | 0 <= i < |lists| :: a in Ids(lists[i])) && (exists i | 0 <= i < |lists| :: b in Ids(lists[i]))
    ensures ComesFirst(WeightedOut(lists, weights), a, b)
  {
    var blocks := Blocks(lists, weights);
    forall i | 0 <= i < |blocks|
      ensures Total(blocks[i], a) >= Total(blocks[i], b) && (Favours(lists[i], a, b) ==> Total(blocks[i], a) > Total(blocks[i], b))
    {
      if Favours(lists[i], a, b) {
        ListFavours(lists[i], weights[i], a, b);
      } else {
        AbsentFromList(lists[i], weights[i], a);
        AbsentFromList(lists[i], weights[i], b);
      }
    }
    FlatDominates(blocks, a, b);
    var i :| 0 <= i < |lists| && a in Ids(lists[i]);
    assert Favours(lists[i], a, b);
    OccursWeighted(lists, weights, a);
    OccursWeighted(lists, weights, b);
    HigherComesFirst(WeightedVotes(lists, weights), a, b);
  }

  lemma OccursWeighted(lists: seq<seq<Row>>, weights: seq<real>, id: Option<Id>)
    ensures Voted(WeightedVotes(lists, weights), id) <==> exists i | 0 <= i < Pairs(lists, weights) :: id in Ids(lists[i])
  {
    var blocks := Blocks(lists, weights);
    FlatVoted(blocks, id);
    forall i | 0 <= i < |blocks| ensures VotedIn(blocks, id, i) <==> id in Ids(lists[i]) {
      ListVoted(lists[i], weights[i], id);
    }
  }

  /** One list with a positive weight keeps the order of its scores. */
  lemma WeightedKeepsOrder(lst: seq<Row>, w: real, x: Row, y: Row)
    requires w > 0.0 && DistinctIds(lst) && x in lst && y in lst && x.score.UnwrapOr(0.0) > y.score.UnwrapOr(0.0)
    ensures ComesFirst(WeightedOut([lst], [w]), x.id, y.id)
  {
    assert ScoresAbove(lst, x.id, y.id, x, y);
    assert x.id in Ids([lst][0]) && y.id in Ids([lst][0]);
    WeightedDominance([lst], [w], x.id, y.id);
  }
}
