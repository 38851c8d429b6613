/** The merge of a multi-partition search: per-partition top-k lists are
    concatenated, sorted stably, deduplicated by id and cut again. */
module Search {
  import opened Wrappers

  datatype Id = IntId(i: int) | TextId(t: string)

  /** A row as the engine returned it; `payload` stands for its other fields. */
  datatype Row = Row(id: Option<Id>, score: Option<real>, payload: int)

  function Key(r: Row): real {
    r.score.UnwrapOr(0.0)
  }

  /** `a` may stand before `b`: larger scores first for IP and COSINE, smaller first otherwise. */
  predicate Before(descending: bool, a: Row, b: Row) {
    if descending then Key(a) >= Key(b) else Key(a) <= Key(b)
  }

  ghost predicate Sorted(descending: bool, s: seq<Row>) {
    forall i, j | 0 <= i < j < |s| :: Before(descending, s[i], s[j])
  }

  // ---------- the stable sort ----------

  /** In front of everything that is not better, so rows with equal scores keep their order. */
  function Insert(descending: bool, r: Row, s: seq<Row>): seq<Row> {
    if s == [] || Before(descending, r, s[0]) then [r] + s
    else [s[0]] + Insert(descending, r, s[1..])
  }

  function Sort(descending: bool, s: seq<Row>): seq<Row> {
    if s == [] then [] else Insert(descending, s[0], Sort(descending, s[1..]))
  }

  lemma {:induction false} InsertContents(descending: bool, r: Row, s: seq<Row>)
    ensures multiset(Insert(descending, r, s)) == multiset{r} + multiset(s)
  {
    if s != [] && !Before(descending, r, s[0]) {
      InsertContents(descending, r, s[1..]);
      assert s == [s[0]] + s[1..];
    }
  }

  lemma {:induction false} InsertSorted(descending: bool, r: Row, s: seq<Row>)
    requires Sorted(descending, s)
    ensures Sorted(descending, Insert(descending, r, s))
  {
    if s != [] && !Before(descending, r, s[0]) {
      var rest := Insert(descending, r, s[1..]);
      InsertSorted(descending, r, s[1..]);
      InsertContents(descending, r, s[1..]);
      forall x | x in rest ensures Before(descending, s[0], x) {
        assert x in multiset(rest);
        assert x == r || x in s[1..];
      }
    }
  }

  lemma {:induction false} SortIsSortedPermutation(descending: bool, s: seq<Row>)
    ensures multiset(Sort(descending, s)) == multiset(s) && Sorted(descending, Sort(descending, s))
  {
    if s != [] {
      SortIsSortedPermutation(descending, s[1..]);
      InsertContents(descending, s[0], Sort(descending, s[1..]));
      InsertSorted(descending, s[0], Sort(descending, s[1..]));
      assert s == [s[0]] + s[1..];
    }
  }

  /** The rows with one score, in order. */
  function WithKey(k: real, s: seq<Row>): seq<Row> {
    if s == [] then [] else (if Key(s[0]) == k then [s[0]] else []) + WithKey(k, s[1..])
  }

  lemma {:induction false} InsertStable(descending: bool, r: Row, s: seq<Row>, k: real)
    requires Sorted(descending, s)
    ensures WithKey(k, Insert(descending, r, s)) == WithKey(k, [r] + s)
  {
    if s == [] || Before(descending, r, s[0]) {
    } else {
      InsertStable(descending, r, s[1..], k);
      assert Insert(descending, r, s)[1..] == Insert(descending, r, s[1..]);
      assert ([r] + s)[1..] == s && ([r] + s[1..])[1..] == s[1..];
    }
  }

  lemma {:induction false} SortIsStable(descending: bool, s: seq<Row>, k: real)
    ensures WithKey(k, Sort(descending, s)) == WithKey(k, s)
  {
    if s != [] {
      SortIsStable(descending, s[1..], k);
      SortIsSortedPermutation(descending, s[1..]);
      InsertStable(descending, s[0], Sort(descending, s[1..]), k);
      assert ([s[0]] + Sort(descending, s[1..]))[1..] == Sort(descending, s[1..]);
    }
  }

  /** Being sorted and stable leaves no choice: there is one stable sort. */
  lemma {:induction false} StableSortIsUnique(descending: bool, s: seq<Row>, t: seq<Row>)
    requires Sorted(descending, s) && Sorted(descending, t)
    requires forall k :: WithKey(k, s) == WithKey(k, t)
    ensures s == t
  {
    NothingWithout(s, t);
    NothingWithout(t, s);
    hide WithKey, Before, Key;
    if s != [] && t != [] {
      SameHead(descending, s, t);
      forall k ensures WithKey(k, s[1..]) == WithKey(k, t[1..]) {
        TailKeys(s, t, k);
      }
      StableSortIsUnique(descending, s[1..], t[1..]);
      assert s == [s[0]] + s[1..] && t == [t[0]] + t[1..];
    }
  }

  lemma NothingWithout(s: seq<Row>, t: seq<Row>)
    requires forall k :: WithKey(k, s) == WithKey(k, t)
    ensures s == [] ==> t == []
  {
    if t != [] {
      assert WithKey(Key(t[0]), t) != [] && WithKey(Key(t[0]), s) != [];
    }
  }

  lemma SameHead(descending: bool, s: seq<Row>, t: seq<Row>)
    requires s != [] && t != [] && Sorted(descending, s) && Sorted(descending, t)
    requires forall k :: WithKey(k, s) == WithKey(k, t)
    ensures s[0] == t[0]
  {
    HeadKeys(descending, s, t);
    HeadKeys(descending, t, s);
    assert WithKey(Key(s[0]), s)[0] == s[0] && WithKey(Key(t[0]), t)[0] == t[0];
  }

  lemma TailKeys(s: seq<Row>, t: seq<Row>, k: real)
    requires s != [] && t != [] && s[0] == t[0] && WithKey(k, s) == WithKey(k, t)
    ensures WithKey(k, s[1..]) == WithKey(k, t[1..])
  {
    var head := if Key(s[0]) == k then [s[0]] else [];
    assert WithKey(k, s) == head + WithKey(k, s[1..]) && WithKey(k, t) == head + WithKey(k, t[1..]);
    assert WithKey(k, s)[|head|..] == WithKey(k, s[1..]) && WithKey(k, t)[|head|..] == WithKey(k, t[1..]);
  }

  lemma HeadKeys(descending: bool, s: seq<Row>, t: seq<Row>)
    requires s != [] && t != [] && Sorted(descending, s) && WithKey(Key(t[0]), s) == WithKey(Key(t[0]), t)
    ensures Before(descending, s[0], t[0])
  {
  }

  lemma {:induction false} WithKeyMembers(k: real, s: seq<Row>)
    ensures forall x <- WithKey(k, s) :: x in s && Key(x) == k
  {
    if s != [] {
      WithKeyMembers(k, s[1..]);
    }
  }

  // ---------- deduplication ----------

  function Ids(s: seq<Row>): set<Option<Id>> {
    set r | r in s :: r.id
  }

  /** The first row of every id, in order. */
  function Dedupe(s: seq<Row>): seq<Row> {
    if s == [] then []
    else
      var init, last := s[..|s| - 1], s[|s| - 1];
      if last.id in Ids(init) then Dedupe(init) else Dedupe(init) + [last]
  }

  ghost predicate DistinctIds(s: seq<Row>) {
    forall i, j | 0 <= i < j < |s| :: s[i].id != s[j].id
  }

  lemma {:induction false} DedupeIds(s: seq<Row>)
    ensures Ids(Dedupe(s)) == Ids(s) && |Dedupe(s)| == |Ids(s)| && DistinctIds(Dedupe(s))
  {
    if s != [] {
      var init, last := s[..|s| - 1], s[|s| - 1];
      DedupeIds(init);
      assert s == init + [last];
      IdsSnoc(init, last);
      if last.id !in Ids(init) {
        IdsSnoc(Dedupe(init), last);
        DistinctSnoc(Dedupe(init), last);
      }
    }
  }

  lemma IdsSnoc(s: seq<Row>, r: Row)
    ensures Ids(s + [r]) == Ids(s) + {r.id}
  {
  }

  lemma DistinctSnoc(s: seq<Row>, r: Row)
    requires DistinctIds(s) && r.id !in Ids(s)
    ensures DistinctIds(s + [r])
  {
  }

  lemma {:induction false} DedupeExtends(s: seq<Row>, t: seq<Row>)
    ensures Dedupe(s) <= Dedupe(s + t)
  {
    if t == [] {
      assert s + t == s;
    } else {
      var l := |t| - 1;
      DedupeExtends(s, t[..l]);
      assert (s + t)[..|s + t| - 1] == s + t[..l];
    }
  }

  /** Every kept row stands in the list at a place before which its id does not occur. */
  ghost predicate FirstOfId(s: seq<Row>, r: Row, i: int) {
    0 <= i < |s| && s[i] == r && r.id !in Ids(s[..i])
  }

  lemma {:induction false} DedupeKeepsFirst(s: seq<Row>, j: nat)
    requires j < |Dedupe(s)|
    ensures exists i :: FirstOfId(s, Dedupe(s)[j], i)
  {
    var init, last := s[..|s| - 1], s[|s| - 1];
    if j < |Dedupe(init)| {
      DedupeExtends(init, [last]);
      assert init + [last] == s;
      DedupeKeepsFirst(init, j);
      var i :| FirstOfId(init, Dedupe(init)[j], i);
      assert s[..i] == init[..i];
      assert FirstOfId(s, Dedupe(s)[j], i);
    } else {
      assert FirstOfId(s, Dedupe(s)[j], |s| - 1);
    }
  }

  lemma {:induction false} DedupeSorted(descending: bool, s: seq<Row>)
    requires Sorted(descending, s)
    ensures Sorted(descending, Dedupe(s)) && forall r <- Dedupe(s) :: r in s
  {
    if s != [] {
      var init := s[..|s| - 1];
      DedupeSorted(descending, init);
      forall r | r in init ensures Before(descending, r, s[|s| - 1]) {
        var i :| 0 <= i < |init| && init[i] == r;
        assert s[i] == r;
      }
      assert forall i | 0 <= i < |Dedupe(init)| :: Dedupe(init)[i] in init;
    }
  }

  // ---------- the merge ----------

  /** The slice `s[:n]`, with a negative n counting from the end. */
  function Take(s: seq<Row>, n: int): seq<Row> {
    if n >= 0 then (if n <= |s| then s[..n] else s)
    else if -n <= |s| then s[..|s| + n]
    else []
  }

  function Concat(parts: seq<seq<Row>>): seq<Row> {
    if parts == [] then [] else Concat(parts[..|parts| - 1]) + parts[|parts| - 1]
  }

  function Ranked(descending: bool, rows: seq<Row>, limit: int): seq<Row> {
    Take(Dedupe(Sort(descending, rows)), limit)
  }

  lemma {:induction false} ConcatAround(parts: seq<seq<Row>>, p: nat)
    requires p < |parts|
    ensures Concat(parts) == Concat(parts[..p]) + parts[p] + Concat(parts[p + 1..])
  {
    var l := |parts| - 1;
    if p == l {
      assert parts[p + 1..] == [];
    } else {
      ConcatAround(parts[..l], p);
      assert parts[..l][..p] == parts[..p] && parts[..l][p + 1..] == parts[p + 1..][..l - p - 1];
    }
  }

  function Min(a: int, b: int): int {
    if a <= b then a else b
  }

  function Max0(a: int): int {
    if a <= 0 then 0 else a
  }

  /** Rows by growing score, each the row of its id with the smallest score, and
      no other id with a smaller score than one of them. */
  ghost predicate SmallestFirst(out: seq<Row>, rows: seq<Row>) {
    && (forall i, j | 0 <= i < j < |out| :: Key(out[i]) <= Key(out[j]))
    && (forall r, x | r in out && x in rows && x.id == r.id :: Key(r) <= Key(x))
    && (forall r, x | r in out && x in rows && x.id !in Ids(out) :: Key(r) <= Key(x))
  }

  ghost predicate LargestFirst(out: seq<Row>, rows: seq<Row>) {
    && (forall i, j | 0 <= i < j < |out| :: Key(out[i]) >= Key(out[j]))
    && (forall r, x | r in out && x in rows && x.id == r.id :: Key(r) >= Key(x))
    && (forall r, x | r in out && x in rows && x.id !in Ids(out) :: Key(r) >= Key(x))
  }

  /** The body of the loop over query vectors, on the lists the partitions returned. */
  method Merge(parts: seq<seq<Row>>, descending: bool, limit: int) returns (out: seq<Row>)
    ensures out == Ranked(descending, Concat(parts), limit)
    ensures DistinctIds(out) && forall r <- out :: exists p <- parts :: r in p
    ensures 0 <= limit && !descending ==> SmallestFirst(out, Concat(parts))
    ensures 0 <= limit && descending ==> LargestFirst(out, Concat(parts))
    ensures 0 <= limit ==> |out| == Min(limit, |Ids(Concat(parts))|)
    ensures limit < 0 ==> |out| == Max0(|Ids(Concat(parts))| + limit)
  {
    var merged: seq<Row> := [];
    for p := 0 to |parts|
      invariant merged == Concat(parts[..p])
    {
      assert parts[..p + 1][..p] == parts[..p];
      merged := merged + parts[p];
    }
    assert parts[..|parts|] == parts;
    merged := Sort(descending, merged);
    var seen: set<Option<Id>> := {};
    var deduped: seq<Row> := [];
    for i := 0 to |merged|
      invariant seen == Ids(merged[..i]) && deduped == Dedupe(merged[..i])
    {
      var row := merged[i];
      assert merged[..i + 1] == merged[..i] + [row] && merged[..i + 1][..i] == merged[..i];
      IdsSnoc(merged[..i], row);
      if row.id !in seen {
        seen := seen + {row.id};
        deduped := deduped + [row];
      }
    }
    assert merged[..|merged|] == merged;
    out := Take(deduped, limit);
    MergedRows(parts, descending, limit);
    if limit >= 0 {
      InNumbers(descending, Concat(parts), limit);
    }
  }

  lemma MergedRows(parts: seq<seq<Row>>, descending: bool, limit: int)
    ensures var out, ids := Ranked(descending, Concat(parts), limit), |Ids(Concat(parts))|;
            && DistinctIds(out) && (forall r <- out :: exists p <- parts :: r in p)
            && |out| == if limit >= 0 then Min(limit, ids) else Max0(ids + limit)
  {
    hide Concat, Sort, Dedupe, DistinctIds, Before;
    var rows := Concat(parts);
    var s := Sort(descending, rows);
    SortIsSortedPermutation(descending, rows);
    SameElements(s, rows);
    DedupeSorted(descending, s);
    DedupeIds(s);
    assert Ids(s) == Ids(rows);
    TakeDistinct(Dedupe(s), limit);
    forall r | r in Ranked(descending, rows, limit) ensures exists p <- parts :: r in p {
      InSomePart(parts, r);
    }
  }

  /** A prefix, of the length that a slice has. */
  lemma TakeIs(s: seq<Row>, n: int)
    ensures Take(s, n) <= s && |Take(s, n)| == if n >= 0 then Min(n, |s|) else Max0(|s| + n)
  {
  }

  lemma TakeDistinct(s: seq<Row>, n: int)
    requires DistinctIds(s)
    ensures DistinctIds(Take(s, n)) && (forall r <- Take(s, n) :: r in s)
    ensures |Take(s, n)| == if n >= 0 then Min(n, |Ids(s)|) else Max0(|Ids(s)| + n)
  {
    TakeIs(s, n);
    DistinctIdsCount(s);
  }

  lemma {:induction false} InSomePart(parts: seq<seq<Row>>, r: Row)
    requires r in Concat(parts)
    ensures exists p <- parts :: r in p
  {
    var l := |parts| - 1;
    if r in parts[l] {
      assert parts[l] in parts;
    } else {
      InSomePart(parts[..l], r);
      var p :| p in parts[..l] && r in p;
      assert p in parts;
    }
  }

  /** What the merge returns: distinct ids in order of score, each id with its
      best row; and an id left out is no better than any row returned, of which
      there are then `limit`. */
  lemma RankedIsTopK(descending: bool, rows: seq<Row>, limit: nat)
    ensures var out := Ranked(descending, rows, limit);
            && |out| <= limit && DistinctIds(out) && Sorted(descending, out)
            && (forall r <- out :: r in rows)
            && (forall r, x | r in out && x in rows && x.id == r.id :: Before(descending, r, x))
            && (forall x | x in rows && x.id !in Ids(out) :: |out| == limit && forall r <- out :: Before(descending, r, x))
  {
    var s := Sort(descending, rows);
    var out := Ranked(descending, rows, limit);
    SortIsSortedPermutation(descending, rows);
    SameElements(s, rows);
    DedupeIds(s);
    DedupeSorted(descending, s);
    assert out <= Dedupe(s);
    forall r, x | r in out && x in rows && x.id == r.id ensures Before(descending, r, x) {
      BestOfId(descending, s, r, x);
    }
    forall x | x in rows && x.id !in Ids(out) ensures |out| == limit && forall r <- out :: Before(descending, r, x) {
      LeftOut(descending, s, limit, x);
    }
  }

  /** The same in numbers. */
  lemma InNumbers(descending: bool, rows: seq<Row>, limit: nat)
    ensures !descending ==> SmallestFirst(Ranked(false, rows, limit), rows)
    ensures descending ==> LargestFirst(Ranked(true, rows, limit), rows)
  {
    hide Ranked, Key, Ids, DistinctIds;
    RankedIsTopK(descending, rows, limit);
    var out := Ranked(descending, rows, limit);
    forall i, j | 0 <= i < j < |out| ensures if descending then Key(out[i]) >= Key(out[j]) else Key(out[i]) <= Key(out[j]) {
      assert Before(descending, out[i], out[j]);
    }
    forall r, x | r in out && x in rows && (x.id == r.id || x.id !in Ids(out))
      ensures if descending then Key(r) >= Key(x) else Key(r) <= Key(x)
    {
      assert Before(descending, r, x);
    }
  }

  lemma LeftOut(descending: bool, s: seq<Row>, limit: nat, x: Row)
    requires Sorted(descending, s) && Sorted(descending, Dedupe(s)) && Ids(Dedupe(s)) == Ids(s)
    requires x in s && x.id !in Ids(Take(Dedupe(s), limit))
    ensures var out := Take(Dedupe(s), limit); |out| == limit && forall r <- out :: Before(descending, r, x)
  {
    var d, out := Dedupe(s), Take(Dedupe(s), limit);
    assert x.id in Ids(d);
    var y :| y in d && y.id == x.id;
    var j :| 0 <= j < |d| && d[j] == y;
    assert forall i | 0 <= i < |out| :: out[i] == d[i] && d[i].id in Ids(out);
    BestOfId(descending, s, y, x);
    forall r | r in out ensures Before(descending, r, x) {
      var i :| 0 <= i < |out| && out[i] == r;
      assert Before(descending, d[i], d[j]);
    }
  }

  lemma SameElements(s: seq<Row>, t: seq<Row>)
    requires multiset(s) == multiset(t)
    ensures forall x :: x in s <==> x in t
  {
    forall x ensures x in s <==> x in t {
      assert x in s <==> x in multiset(s);
      assert x in t <==> x in multiset(t);
    }
  }

  lemma BestOfId(descending: bool, s: seq<Row>, r: Row, x: Row)
    requires Sorted(descending, s) && r in Dedupe(s) && x in s && x.id == r.id
    ensures Before(descending, r, x)
  {
    var j :| 0 <= j < |Dedupe(s)| && Dedupe(s)[j] == r;
    DedupeKeepsFirst(s, j);
    var i :| FirstOfId(s, r, i);
    var k :| 0 <= k < |s| && s[k] == x;
    assert forall m | 0 <= m < i :: s[m] in s[..i] && s[m].id in Ids(s[..i]);
  }

  // ---------- truncating each partition first changes nothing ----------

  lemma {:induction false} InsertPast(descending: bool, p: Row, a: seq<Row>, b: seq<Row>)
    requires forall x <- a :: !Before(descending, p, x)
    ensures Insert(descending, p, a + b) == a + Insert(descending, p, b)
  {
    if a == [] {
      assert a + b == b;
    } else {
      assert (a + b)[1..] == a[1..] + b && (a + b)[0] == a[0] && a[0] in a;
      InsertPast(descending, p, a[1..], b);
      assert a + Insert(descending, p, b) == [a[0]] + (a[1..] + Insert(descending, p, b));
    }
  }

  lemma {:induction false} InsertWithin(descending: bool, p: Row, a: seq<Row>, b: seq<Row>)
    requires b == [] || Before(descending, p, b[0])
    ensures Insert(descending, p, a + b) == Insert(descending, p, a) + b
  {
    if a == [] {
      assert a + b == b;
    } else {
      assert (a + b)[1..] == a[1..] + b && (a + b)[0] == a[0];
      if Before(descending, p, a[0]) {
        assert [p] + (a + b) == [p] + a + b;
      } else {
        InsertWithin(descending, p, a[1..], b);
        assert [a[0]] + (Insert(descending, p, a[1..]) + b) == [a[0]] + Insert(descending, p, a[1..]) + b;
      }
    }
  }

  lemma SortCons(descending: bool, x: Row, s: seq<Row>)
    ensures Sort(descending, [x] + s) == Insert(descending, x, Sort(descending, s))
  {
  }

  /** Where a row ends up in the sorted list: behind every row that stood before
      it and is not worse.  Without the row, the rest keeps its order. */
  lemma {:induction false} SortAround(descending: bool, p: seq<Row>, r: Row, q: seq<Row>) returns (u: seq<Row>, v: seq<Row>)
    ensures Sort(descending, p + [r] + q) == u + [r] + v && Sort(descending, p + q) == u + v
    ensures forall x | x in p && Before(descending, x, r) :: x in u
  {
    hide Sort, Insert;
    if p == [] {
      assert p + [r] + q == [r] + q && p + q == q;
      SortCons(descending, r, q);
      u, v := InsertSplits(descending, r, Sort(descending, q));
    } else {
      var rest := p[1..];
      var u1, v1 := SortAround(descending, rest, r, q);
      assert p + [r] + q == [p[0]] + (rest + [r] + q) && p + q == [p[0]] + (rest + q);
      SortCons(descending, p[0], rest + [r] + q);
      SortCons(descending, p[0], rest + q);
      SortIsSortedPermutation(descending, rest + [r] + q);
      u, v := InsertAround(descending, p[0], u1, r, v1);
      forall x | x in p && Before(descending, x, r) ensures x in u {
        assert x == p[0] || x in rest;
      }
    }
  }

  lemma {:induction false} InsertSplits(descending: bool, r: Row, s: seq<Row>) returns (u: seq<Row>, v: seq<Row>)
    ensures Insert(descending, r, s) == u + [r] + v && s == u + v
  {
    if s == [] || Before(descending, r, s[0]) {
      u, v := [], s;
    } else {
      var u1;
      u1, v := InsertSplits(descending, r, s[1..]);
      u := [s[0]] + u1;
      assert s == [s[0]] + s[1..];
    }
  }

  lemma InsertAround(descending: bool, p: Row, u1: seq<Row>, r: Row, v1: seq<Row>) returns (u: seq<Row>, v: seq<Row>)
    requires Sorted(descending, u1 + [r] + v1)
    ensures Insert(descending, p, u1 + [r] + v1) == u + [r] + v && Insert(descending, p, u1 + v1) == u + v
    ensures (forall x <- u1 :: x in u) && (Before(descending, p, r) ==> p in u)
  {
    var all := u1 + [r] + v1;
    assert all == u1 + ([r] + v1) && all[|u1|] == r;
    assert v1 != [] ==> v1[0] == all[|u1| + 1];
    if Before(descending, p, r) {
      InsertWithin(descending, p, u1, [r] + v1);
      InsertWithin(descending, p, u1, v1);
      u, v := Insert(descending, p, u1), v1;
      assert u + ([r] + v1) == u + [r] + v1;
      InsertContents(descending, p, u1);
      SameElements(u, [p] + u1);
    } else {
      forall x | x in u1 + [r] ensures !Before(descending, p, x) {
        var i :| 0 <= i <= |u1| && (u1 + [r])[i] == x;
        assert all[i] == x && (i < |u1| ==> Before(descending, all[i], all[|u1|]));
      }
      assert forall x <- u1 :: x in u1 + [r];
      InsertPast(descending, p, u1 + [r], v1);
      InsertPast(descending, p, u1, v1);
      u, v := u1, Insert(descending, p, v1);
    }
  }

  lemma DistinctIdsCount(s: seq<Row>)
    requires DistinctIds(s)
    ensures |Ids(s)| == |s|
  {
    if s != [] {
      var init := s[..|s| - 1];
      DistinctIdsCount(init);
      assert s == init + [s[|s| - 1]];
      IdsSnoc(init, s[|s| - 1]);
      assert forall i | 0 <= i < |init| :: init[i] == s[i];
    }
  }

  /** A row with `limit` rows of other ids before it in its partition does not show. */
  lemma DropOne(descending: bool, a: seq<Row>, part: seq<Row>, b: seq<Row>, limit: nat)
    requires |part| > limit && Sorted(descending, part) && DistinctIds(part)
    ensures Ranked(descending, a + part + b, limit) == Ranked(descending, a + part[..|part| - 1] + b, limit)
  {
    var kept, r := part[..|part| - 1], part[|part| - 1];
    assert a + part + b == (a + kept) + [r] + b;
    var u, v := SortAround(descending, a + kept, r, b);
    forall x | x in kept ensures x in u {
      var i :| 0 <= i < |kept| && kept[i] == x;
      assert Before(descending, part[i], r) && x in a + kept;
    }
    EnoughIds(kept, u);
    DedupeExtends(u, [r] + v);
    DedupeExtends(u, v);
    assert u + ([r] + v) == u + [r] + v;
  }

  /** A list that holds rows of distinct ids keeps at least as many when deduplicated. */
  lemma EnoughIds(kept: seq<Row>, u: seq<Row>)
    requires DistinctIds(kept) && forall x <- kept :: x in u
    ensures |Dedupe(u)| >= |kept|
  {
    DistinctIdsCount(kept);
    SubsetSize(Ids(kept), Ids(u));
    DedupeIds(u);
  }

  lemma SubsetSize(a: set<Option<Id>>, b: set<Option<Id>>)
    requires a <= b
    ensures |a| <= |b|
  {
    assert b == a + (b - a);
  }

  lemma {:induction false} CutOne(descending: bool, a: seq<Row>, part: seq<Row>, b: seq<Row>, limit: nat)
    requires Sorted(descending, part) && DistinctIds(part)
    ensures Ranked(descending, a + part + b, limit) == Ranked(descending, a + Take(part, limit) + b, limit)
    decreases |part|
  {
    if |part| > limit {
      var kept := part[..|part| - 1];
      DropOne(descending, a, part, b, limit);
      CutOne(descending, a, kept, b, limit);
      assert Take(kept, limit) == Take(part, limit);
    } else {
      assert Take(part, limit) == part;
    }
  }

  /** What the engine returns for each partition: its first `limit` rows. */
  function Cut(parts: seq<seq<Row>>, limit: nat): seq<seq<Row>> {
    seq(|parts|, i requires 0 <= i < |parts| => Take(parts[i], limit))
  }

  lemma {:induction false} CutAll(descending: bool, parts: seq<seq<Row>>, b: seq<Row>, limit: nat)
    requires forall p <- parts :: Sorted(descending, p) && DistinctIds(p)
    ensures Ranked(descending, Concat(Cut(parts, limit)) + b, limit) == Ranked(descending, Concat(parts) + b, limit)
  {
    hide Ranked, Take, Sorted, DistinctIds;
    if parts == [] {
      assert Cut(parts, limit) == [];
    } else {
      var l := |parts| - 1;
      var init, last := parts[..l], parts[l];
      assert Cut(parts, limit)[..l] == Cut(init, limit) && Cut(parts, limit)[l] == Take(last, limit);
      assert forall p <- init :: p in parts;
      assert last in parts;
      CutAll(descending, init, Take(last, limit) + b, limit);
      CutOne(descending, Concat(init), last, b, limit);
      assert Concat(Cut(init, limit)) + (Take(last, limit) + b) == Concat(Cut(init, limit)) + Take(last, limit) + b;
      assert Concat(init) + (Take(last, limit) + b) == Concat(init) + Take(last, limit) + b;
    }
  }

  /** The merge is exact: cutting every partition to its first `limit` rows before
      the merge gives the very list that ranking everything gives, ties, ids in
      several partitions and both directions included. */
  lemma TruncatedMergeIsExact(descending: bool, parts: seq<seq<Row>>, limit: nat)
    requires forall p <- parts :: Sorted(descending, p) && DistinctIds(p)
    ensures Ranked(descending, Concat(Cut(parts, limit)), limit) == Ranked(descending, Concat(parts), limit)
  {
    CutAll(descending, parts, [], limit);
    assert Concat(Cut(parts, limit)) + [] == Concat(Cut(parts, limit)) && Concat(parts) + [] == Concat(parts);
  }
}
