/** Rank fusion of several result lists: reciprocal ranks and weighted scores.
    Both give every row of every list a vote; the votes are tallied by id. */
module Fusion {
  import opened Wrappers
  import opened Search

  datatype Vote = Vote(row: Row, weight: real)

  // ---------- the tally ----------

  /** The two dictionaries of the code, with the insertion order of their keys. */
  datatype Tally = Tally(order: seq<Option<Id>>, scores: map<Option<Id>, real>, payload: map<Option<Id>, Row>)

  const EMPTY := Tally([], map[], map[])

  function Cast(t: Tally, row: Row, weight: real): Tally {
    var id := row.id;
    Tally(if id in t.scores then t.order else t.order + [id],
          t.scores[id := (if id in t.scores then t.scores[id] else 0.0) + weight],
          t.payload[id := row])
  }

  ghost predicate Complete(t: Tally) {
    && t.scores.Keys == t.payload.Keys == (set id | id in t.order)
    && (forall i, j | 0 <= i < j < |t.order| :: t.order[i] != t.order[j])
    && (forall id <- t.payload :: t.payload[id].id == id)
  }

  lemma CastComplete(t: Tally, row: Row, weight: real)
    requires Complete(t)
    ensures Complete(Cast(t, row, weight))
  {
    var u := Cast(t, row, weight);
    assert forall id :: id in u.order <==> id in t.order || id == row.id;
    assert row.id in t.scores <==> row.id in t.order;
    forall i, j | 0 <= i < j < |u.order| ensures u.order[i] != u.order[j] {
      assert i < |t.order| && u.order[i] == t.order[i] && t.order[i] in t.order;
    }
  }

  function TallyOf(votes: seq<Vote>): Tally {
    if votes == [] then EMPTY
    else Cast(TallyOf(votes[..|votes| - 1]), votes[|votes| - 1].row, votes[|votes| - 1].weight)
  }

  lemma {:induction false} TallyComplete(votes: seq<Vote>)
    ensures Complete(TallyOf(votes))
  {
    if votes != [] {
      TallyComplete(votes[..|votes| - 1]);
      CastComplete(TallyOf(votes[..|votes| - 1]), votes[|votes| - 1].row, votes[|votes| - 1].weight);
    }
  }

  function Entry(t: Tally, id: Option<Id>): Row
    requires id in t.scores && id in t.payload
  {
    t.payload[id].(score := Some(t.scores[id]))
  }

  function Entries(t: Tally): seq<Row>
    requires Complete(t)
  {
    seq(|t.order|, i requires 0 <= i < |t.order| => Entry(t, t.order[i]))
  }

  /** The fused list: one row per id, best score first. */
  function Fused(t: Tally): seq<Row>
    requires Complete(t)
  {
    Sort(true, Entries(t))
  }

  // ---------- what the tally means ----------

  function Total(votes: seq<Vote>, id: Option<Id>): real {
    if votes == [] then 0.0
    else
      var v := votes[|votes| - 1];
      Total(votes[..|votes| - 1], id) + if v.row.id == id then v.weight else 0.0
  }

  function AllWeights(votes: seq<Vote>): real {
    if votes == [] then 0.0 else AllWeights(votes[..|votes| - 1]) + votes[|votes| - 1].weight
  }

  ghost predicate LastVote(votes: seq<Vote>, row: Row, i: int) {
    0 <= i < |votes| && votes[i].row == row && forall j | i < j < |votes| :: votes[j].row.id != row.id
  }

  ghost predicate Voted(votes: seq<Vote>, id: Option<Id>) {
    exists i | 0 <= i < |votes| :: votes[i].row.id == id
  }

  lemma {:induction false} TallyMeaning(votes: seq<Vote>, id: Option<Id>)
    ensures var t := TallyOf(votes);
            && (id in t.scores <==> Voted(votes, id))
            && (id in t.scores ==> t.scores[id] == Total(votes, id))
            && (id !in t.scores ==> Total(votes, id) == 0.0)
            && (id in t.payload ==> exists i :: LastVote(votes, t.payload[id], i))
  {
    if votes != [] {
      var l := |votes| - 1;
      var init, t := votes[..l], TallyOf(votes);
      TallyMeaning(init, id);
      TallyComplete(init);
      if votes[l].row.id == id {
        assert LastVote(votes, votes[l].row, l);
      } else {
        if i :| 0 <= i < l && init[i].row.id == id {
          assert votes[i].row.id == id;
        }
        if id in t.payload {
          var i :| LastVote(init, TallyOf(init).payload[id], i);
          assert LastVote(votes, t.payload[id], i);
        }
      }
    }
  }

  /** Insertion order is order of first occurrence. */
  ghost predicate FirstVote(votes: seq<Vote>, id: Option<Id>, i: int) {
    0 <= i < |votes| && votes[i].row.id == id && forall j | 0 <= j < i :: votes[j].row.id != id
  }

  lemma {:induction false} OrderIsFirstVotes(votes: seq<Vote>) returns (at: seq<int>)
    ensures var t := TallyOf(votes);
            && |at| == |t.order| && (forall n | 0 <= n < |at| :: FirstVote(votes, t.order[n], at[n]))
            && (forall m, n | 0 <= m < n < |at| :: at[m] < at[n])
  {
    at := [];
    if votes != [] {
      var l := |votes| - 1;
      at := OrderIsFirstVotes(votes[..l]);
      TallyMeaning(votes[..l], votes[l].row.id);
      assert forall n | 0 <= n < |at| :: FirstVote(votes, TallyOf(votes[..l]).order[n], at[n]);
      if votes[l].row.id !in TallyOf(votes[..l]).scores {
        assert forall j | 0 <= j < l :: votes[..l][j].row.id != votes[l].row.id;
        assert FirstVote(votes, votes[l].row.id, l);
        at := at + [l];
      }
    }
  }

  /** The fused list: exactly one row for every id that occurs, with the sum of
      its votes as score and the fields of its last occurrence; best score first,
      and equal scores in the order in which the ids first occurred. */
  lemma FusedMeaning(votes: seq<Vote>)
    ensures Complete(TallyOf(votes))
    ensures var t, out := TallyOf(votes), Fused(TallyOf(votes));
            && DistinctIds(out) && Sorted(true, out)
            && (forall id :: id in Ids(out) <==> Voted(votes, id))
            && (forall r <- out :: r.score == Some(Total(votes, r.id)) && HasLastPayload(votes, r))
            && (forall s :: WithKey(s, out) == WithKey(s, Entries(t)))
  {
    TallyComplete(votes);
    var t := TallyOf(votes);
    var es, out := Entries(t), Fused(t);
    SortIsSortedPermutation(true, es);
    SameElements(out, es);
    assert forall i | 0 <= i < |es| :: es[i].id == t.order[i];
    DistinctIdsPermuted(es, out);
    forall s ensures WithKey(s, out) == WithKey(s, es) {
      SortIsStable(true, es, s);
    }
    EntriesIds(votes);
    forall r | r in out ensures r.score == Some(Total(votes, r.id)) && HasLastPayload(votes, r) {
      EntryMeaning(votes, r);
    }
  }

  /** The fields are those of the last row with the id. */
  ghost predicate HasLastPayload(votes: seq<Vote>, r: Row) {
    exists i, row :: LastVote(votes, row, i) && row.id == r.id && row.payload == r.payload
  }

  lemma EntryMeaning(votes: seq<Vote>, r: Row)
    requires Complete(TallyOf(votes)) && r in Entries(TallyOf(votes))
    ensures r.score == Some(Total(votes, r.id)) && HasLastPayload(votes, r)
  {
    var t := TallyOf(votes);
    var n :| 0 <= n < |Entries(t)| && Entries(t)[n] == r;
    TallyMeaning(votes, r.id);
  }

  lemma EntriesIds(votes: seq<Vote>)
    requires Complete(TallyOf(votes))
    ensures forall id :: id in Ids(Entries(TallyOf(votes))) <==> Voted(votes, id)
  {
    var t := TallyOf(votes);
    forall id ensures id in Ids(Entries(t)) <==> Voted(votes, id) {
      TallyMeaning(votes, id);
      if id in t.scores {
        var i :| 0 <= i < |t.order| && t.order[i] == id;
        assert Entries(t)[i] in Entries(t);
      }
    }
  }

  lemma DistinctIdsPermuted(s: seq<Row>, t: seq<Row>)
    requires DistinctIds(s) && multiset(s) == multiset(t)
    ensures DistinctIds(t)
  {
    SameElements(s, t);
    DistinctIdsCount(s);
    MultisetSize(s);
    MultisetSize(t);
    assert Ids(s) == Ids(t);
    CountDistinct(t);
  }

  lemma {:induction false} MultisetSize(s: seq<Row>)
    ensures |multiset(s)| == |s|
  {
  }

  lemma {:induction false} CountDistinct(t: seq<Row>)
    ensures |Ids(t)| <= |t| && (|Ids(t)| == |t| ==> DistinctIds(t))
  {
    if t != [] {
      var init, last := t[..|t| - 1], t[|t| - 1];
      CountDistinct(init);
      assert t == init + [last];
      IdsSnoc(init, last);
      if |Ids(t)| == |t| {
        DistinctSnoc(init, last);
      }
    }
  }

  // ---------- conservation ----------

  function SumKeys(s: seq<Row>): real {
    if s == [] then 0.0 else Key(s[0]) + SumKeys(s[1..])
  }

  lemma {:induction false} InsertSum(r: Row, s: seq<Row>)
    ensures SumKeys(Insert(true, r, s)) == Key(r) + SumKeys(s)
  {
    if s != [] && !Before(true, r, s[0]) {
      InsertSum(r, s[1..]);
    }
  }

  lemma {:induction false} SortSum(s: seq<Row>)
    ensures SumKeys(Sort(true, s)) == SumKeys(s)
  {
    if s != [] {
      SortSum(s[1..]);
      InsertSum(s[0], Sort(true, s[1..]));
    }
  }

  lemma {:induction false} SumSnoc(s: seq<Row>, r: Row)
    ensures SumKeys(s + [r]) == SumKeys(s) + Key(r)
  {
    if s == [] {
      assert s + [r] == [r];
    } else {
      assert (s + [r])[1..] == s[1..] + [r];
      SumSnoc(s[1..], r);
    }
  }

  lemma {:induction false} SumUpdate(s: seq<Row>, i: nat, r: Row)
    requires i < |s|
    ensures SumKeys(s[i := r]) == SumKeys(s) - Key(s[i]) + Key(r)
  {
    if i == 0 {
      assert s[i := r][1..] == s[1..];
    } else {
      assert s[i := r][1..] == s[1..][i - 1 := r];
      SumUpdate(s[1..], i - 1, r);
    }
  }

  lemma CastSum(t: Tally, row: Row, weight: real)
    requires Complete(t) && Complete(Cast(t, row, weight))
    ensures SumKeys(Entries(Cast(t, row, weight))) == SumKeys(Entries(t)) + weight
  {
    var es, es', id := Entries(t), Entries(Cast(t, row, weight)), row.id;
    var e := Entry(Cast(t, row, weight), id);
    if id in t.scores {
      var i :| 0 <= i < |t.order| && t.order[i] == id;
      assert es' == es[i := e];
      SumUpdate(es, i, e);
    } else {
      assert es' == es + [e];
      SumSnoc(es, e);
    }
  }

  lemma {:induction false} EntriesSum(votes: seq<Vote>)
    ensures Complete(TallyOf(votes)) && SumKeys(Entries(TallyOf(votes))) == AllWeights(votes)
  {
    TallyComplete(votes);
    if votes != [] {
      EntriesSum(votes[..|votes| - 1]);
      CastSum(TallyOf(votes[..|votes| - 1]), votes[|votes| - 1].row, votes[|votes| - 1].weight);
    }
  }

  /** Nothing is lost or counted twice: the fused scores add up to all the votes. */
  lemma FusionConserves(votes: seq<Vote>)
    ensures Complete(TallyOf(votes)) && SumKeys(Fused(TallyOf(votes))) == AllWeights(votes)
  {
    EntriesSum(votes);
    SortSum(Entries(TallyOf(votes)));
  }

  lemma {:induction false} TotalConcat(a: seq<Vote>, b: seq<Vote>, id: Option<Id>)
    ensures Total(a + b, id) == Total(a, id) + Total(b, id)
  {
    if b == [] {
      assert a + b == a;
    } else {
      assert (a + b)[..|a + b| - 1] == a + b[..|b| - 1];
      TotalConcat(a, b[..|b| - 1], id);
    }
  }

  lemma VotedConcat(p: seq<Vote>, q: seq<Vote>, id: Option<Id>)
    ensures Voted(p + q, id) <==> Voted(p, id) || Voted(q, id)
  {
    if i :| 0 <= i < |p| && p[i].row.id == id {
      assert (p + q)[i].row.id == id;
    }
    if i :| 0 <= i < |q| && q[i].row.id == id {
      assert (p + q)[|p| + i].row.id == id;
    }
  }

  lemma {:induction false} WeightsConcat(a: seq<Vote>, b: seq<Vote>)
    ensures AllWeights(a + b) == AllWeights(a) + AllWeights(b)
  {
    if b == [] {
      assert a + b == a;
    } else {
      assert (a + b)[..|a + b| - 1] == a + b[..|b| - 1];
      WeightsConcat(a, b[..|b| - 1]);
    }
  }

  lemma {:induction false} AbsentTotal(votes: seq<Vote>, id: Option<Id>)
    requires !Voted(votes, id)
    ensures Total(votes, id) == 0.0
  {
    if votes != [] {
      var init := votes[..|votes| - 1];
      assert forall i | 0 <= i < |init| :: init[i] == votes[i];
      AbsentTotal(init, id);
    }
  }

  /** An id with a single vote has that vote as its total. */
  lemma {:induction false} SingleTotal(votes: seq<Vote>, i: nat)
    requires i < |votes| && forall j | 0 <= j < |votes| && j != i :: votes[j].row.id != votes[i].row.id
    ensures Total(votes, votes[i].row.id) == votes[i].weight
  {
    var l := |votes| - 1;
    if i == l {
      assert !Voted(votes[..l], votes[i].row.id);
      AbsentTotal(votes[..l], votes[i].row.id);
    } else {
      SingleTotal(votes[..l], i);
    }
  }

  // ---------- votes list by list ----------

  function Flat(blocks: seq<seq<Vote>>): seq<Vote> {
    if blocks == [] then [] else Flat(blocks[..|blocks| - 1]) + blocks[|blocks| - 1]
  }

  function SumOf(xs: seq<real>): real {
    if xs == [] then 0.0 else SumOf(xs[..|xs| - 1]) + xs[|xs| - 1]
  }

  lemma {:induction false} FlatBound(blocks: seq<seq<Vote>>, bounds: seq<real>, id: Option<Id>)
    requires |blocks| == |bounds| && forall i | 0 <= i < |blocks| :: -bounds[i] <= Total(blocks[i], id) <= bounds[i]
    ensures -SumOf(bounds) <= Total(Flat(blocks), id) <= SumOf(bounds)
  {
    if blocks != [] {
      var l := |blocks| - 1;
      FlatBound(blocks[..l], bounds[..l], id);
      TotalConcat(Flat(blocks[..l]), blocks[l], id);
    }
  }

  ghost predicate VotedIn(blocks: seq<seq<Vote>>, id: Option<Id>, i: int) {
    0 <= i < |blocks| && Voted(blocks[i], id)
  }

  lemma {:induction false} FlatVoted(blocks: seq<seq<Vote>>, id: Option<Id>)
    ensures Voted(Flat(blocks), id) <==> exists i :: VotedIn(blocks, id, i)
  {
    if blocks != [] {
      var l := |blocks| - 1;
      var init := blocks[..l];
      FlatVoted(init, id);
      VotedConcat(Flat(init), blocks[l], id);
      if i :| VotedIn(init, id, i) {
        assert VotedIn(blocks, id, i);
      }
      if i :| VotedIn(blocks, id, i) {
        assert i < l ==> VotedIn(init, id, i);
      }
      assert Voted(blocks[l], id) ==> VotedIn(blocks, id, l);
    }
  }

  /** Votes that differ in nothing but the scores of their rows. */
  ghost predicate SameButScores(v: seq<Vote>, u: seq<Vote>) {
    && |v| == |u|
    && (forall i | 0 <= i < |v| :: v[i].weight == u[i].weight)
    && (forall i | 0 <= i < |v| :: v[i].row.(score := None) == u[i].row.(score := None))
  }

  lemma {:induction false} FlatSame(a: seq<seq<Vote>>, b: seq<seq<Vote>>)
    requires |a| == |b| && forall i | 0 <= i < |a| :: SameButScores(a[i], b[i])
    ensures SameButScores(Flat(a), Flat(b))
  {
    if a != [] {
      var l := |a| - 1;
      FlatSame(a[..l], b[..l]);
      ConcatSame(Flat(a[..l]), a[l], Flat(b[..l]), b[l]);
    }
  }

  lemma ConcatSame(a: seq<Vote>, b: seq<Vote>, x: seq<Vote>, y: seq<Vote>)
    requires SameButScores(a, x) && SameButScores(b, y)
    ensures SameButScores(a + b, x + y)
  {
  }

  lemma {:induction false} TallySame(v: seq<Vote>, u: seq<Vote>)
    requires SameButScores(v, u)
    ensures var s, t := TallyOf(v), TallyOf(u);
            && s.order == t.order && s.scores == t.scores && s.payload.Keys == t.payload.Keys
            && forall id <- s.payload :: s.payload[id].(score := None) == t.payload[id].(score := None)
  {
    if v != [] {
      TallySame(v[..|v| - 1], u[..|u| - 1]);
      assert v[|v| - 1].row.(score := None).id == u[|u| - 1].row.(score := None).id;
    }
  }

  /** The fused list depends on the weights, not on the scores the rows came with. */
  lemma FusedSame(v: seq<Vote>, u: seq<Vote>)
    requires SameButScores(v, u)
    ensures Complete(TallyOf(v)) && Complete(TallyOf(u)) && Fused(TallyOf(v)) == Fused(TallyOf(u))
  {
    TallyComplete(v);
    TallyComplete(u);
    TallySame(v, u);
    var s, t := TallyOf(v), TallyOf(u);
    forall id | id in s.order ensures Entry(s, id) == Entry(t, id) {
      assert s.payload[id].(score := None).(score := Some(s.scores[id])) == t.payload[id].(score := None).(score := Some(t.scores[id]));
    }
    assert Entries(s) == Entries(t);
  }

  /** A sorted list is left as it is. */
  lemma {:induction false} SortFixesSorted(s: seq<Row>)
    requires Sorted(true, s)
    ensures Sort(true, s) == s
  {
    if s != [] {
      SortFixesSorted(s[1..]);
      assert s == [s[0]] + s[1..];
    }
  }

  ghost predicate DistinctVotes(votes: seq<Vote>) {
    forall i, j | 0 <= i < j < |votes| :: votes[i].row.id != votes[j].row.id
  }

  lemma {:induction false} DistinctVotesOrder(votes: seq<Vote>)
    requires DistinctVotes(votes)
    ensures var t := TallyOf(votes);
            |t.order| == |votes| && forall i | 0 <= i < |votes| :: t.order[i] == votes[i].row.id
  {
    if votes != [] {
      var l := |votes| - 1;
      DistinctVotesOrder(votes[..l]);
      TallyMeaning(votes[..l], votes[l].row.id);
      assert forall i | 0 <= i < l :: votes[..l][i] == votes[i];
    }
  }

  /** With one vote per id every entry is its own row. */
  lemma DistinctVotesEntry(votes: seq<Vote>, i: nat)
    requires DistinctVotes(votes) && i < |votes|
    ensures Complete(TallyOf(votes)) && |Entries(TallyOf(votes))| == |votes|
    ensures Entries(TallyOf(votes))[i] == votes[i].row.(score := Some(votes[i].weight))
  {
    var t, id := TallyOf(votes), votes[i].row.id;
    TallyComplete(votes);
    DistinctVotesOrder(votes);
    TallyMeaning(votes, id);
    SingleTotal(votes, i);
    var n :| LastVote(votes, t.payload[id], n);
    assert n == i;
  }

  // ---------- who comes first ----------

  ghost predicate Places(lst: seq<Row>, a: Option<Id>, b: Option<Id>, m: int, n: int) {
    0 <= m < n < |lst| && lst[m].id == a && lst[n].id == b
  }

  /** `a` stands strictly before `b` in the output. */
  ghost predicate ComesFirst(out: seq<Row>, a: Option<Id>, b: Option<Id>) {
    exists i, j :: Places(out, a, b, i, j)
  }

  lemma HigherComesFirst(votes: seq<Vote>, a: Option<Id>, b: Option<Id>)
    requires Voted(votes, a) && Voted(votes, b) && Total(votes, a) > Total(votes, b)
    ensures Complete(TallyOf(votes)) && ComesFirst(Fused(TallyOf(votes)), a, b)
  {
    FusedMeaning(votes);
    var out := Fused(TallyOf(votes));
    var i := PlaceOf(votes, a);
    var j := PlaceOf(votes, b);
    HigherKeyFirst(out, i, j);
    assert Places(out, a, b, i, j);
  }

  lemma HigherKeyFirst(out: seq<Row>, i: nat, j: nat)
    requires Sorted(true, out) && i < |out| && j < |out| && Key(out[i]) > Key(out[j])
    ensures i < j
  {
  }

  lemma PlaceOf(votes: seq<Vote>, id: Option<Id>) returns (i: nat)
    requires Voted(votes, id)
    ensures Complete(TallyOf(votes))
    ensures var out := Fused(TallyOf(votes)); i < |out| && out[i].id == id && Key(out[i]) == Total(votes, id)
  {
    FusedMeaning(votes);
    var out := Fused(TallyOf(votes));
    assert id in Ids(out);
    i :| 0 <= i < |out| && out[i].id == id;
    assert out[i] in out;
  }

  lemma OneOrder(out: seq<Row>, a: Option<Id>, b: Option<Id>)
    requires DistinctIds(out) && ComesFirst(out, a, b)
    ensures !ComesFirst(out, b, a)
  {
  }

  /** The score of an id in a fused list; 0 for one that is not in it. */
  ghost function ScoreIn(out: seq<Row>, id: Option<Id>): real {
    if exists r :: r in out && r.id == id && r.score.Some? then
      var r :| r in out && r.id == id && r.score.Some?;
      r.score.value
    else 0.0
  }

  lemma ScoreIsTotal(votes: seq<Vote>, id: Option<Id>)
    ensures Complete(TallyOf(votes)) && ScoreIn(Fused(TallyOf(votes)), id) == Total(votes, id)
  {
    FusedMeaning(votes);
    var out := Fused(TallyOf(votes));
    if Voted(votes, id) {
      assert id in Ids(out);
      var r :| r in out && r.id == id;
      assert r.score.Some?;
    } else {
      AbsentTotal(votes, id);
      assert forall r <- out :: r.id in Ids(out);
    }
  }

  /** An id that no block favours less, and one favours more, has the larger total. */
  lemma {:induction false} FlatDominates(blocks: seq<seq<Vote>>, a: Option<Id>, b: Option<Id>)
    requires forall i | 0 <= i < |blocks| :: Total(blocks[i], a) >= Total(blocks[i], b)
    ensures Total(Flat(blocks), a) >= Total(Flat(blocks), b)
    ensures (exists i | 0 <= i < |blocks| :: Total(blocks[i], a) > Total(blocks[i], b)) ==> Total(Flat(blocks), a) > Total(Flat(blocks), b)
  {
    if blocks != [] {
      var l := |blocks| - 1;
      FlatDominates(blocks[..l], a, b);
      TotalConcat(Flat(blocks[..l]), blocks[l], a);
      TotalConcat(Flat(blocks[..l]), blocks[l], b);
      if i :| 0 <= i < |blocks| && Total(blocks[i], a) > Total(blocks[i], b) {
        assert i < l ==> blocks[..l][i] == blocks[i];
      }
    }
  }
}
