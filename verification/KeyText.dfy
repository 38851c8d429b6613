/** The text form of cache keys, "db/collection/partition", and why it may be
    read as a triple when no name contains a slash. */
module KeyText {
  import opened Partitions

  predicate NoSlash(name: string) {
    '/' !in name
  }

  function Text(k: Key): string {
    k.db + "/" + k.coll + "/" + k.part
  }

  /** The prefix that close_collection and the fence loops test for. */
  function Prefix(db: string, coll: string): string {
    db + "/" + coll + "/"
  }

  predicate StartsWith(s: string, prefix: string) {
    |prefix| <= |s| && s[..|prefix|] == prefix
  }

  lemma JoinedAt(a: string, b: string)
    ensures forall i | 0 <= i < |a| :: (a + "/" + b)[i] == a[i]
    ensures (a + "/" + b)[|a|] == '/'
  {
  }

  /** Splitting at the first slash is the inverse of joining with one. */
  lemma FirstSlash(a: string, b: string, c: string, d: string)
    requires NoSlash(a) && NoSlash(c) && a + "/" + b == c + "/" + d
    ensures a == c && b == d
  {
    var s, t := a + "/" + b, c + "/" + d;
    JoinedAt(a, b);
    JoinedAt(c, d);
    assert s[|a|] == t[|a|] && s[|c|] == t[|c|];
    assert |a| == |c|;
    assert a == s[..|a|] && c == t[..|c|];
    assert b == s[|a| + 1..] && d == t[|c| + 1..];
  }

  /** Distinct triples have distinct texts. */
  lemma TextInjective(k: Key, l: Key)
    requires NoSlash(k.db) && NoSlash(k.coll) && NoSlash(l.db) && NoSlash(l.coll)
    requires Text(k) == Text(l)
    ensures k == l
  {
    assert Text(k) == k.db + "/" + (k.coll + "/" + k.part);
    assert Text(l) == l.db + "/" + (l.coll + "/" + l.part);
    FirstSlash(k.db, k.coll + "/" + k.part, l.db, l.coll + "/" + l.part);
    FirstSlash(k.coll, k.part, l.coll, l.part);
  }

  /** A key text starts with the prefix of a collection exactly when the key
      belongs to it, so no other collection is ever touched. */
  lemma PrefixIsMembership(k: Key, db: string, coll: string)
    requires NoSlash(k.db) && NoSlash(k.coll) && NoSlash(db) && NoSlash(coll)
    ensures StartsWith(Text(k), Prefix(db, coll)) <==> InCollection(k, db, coll)
  {
    var p := Prefix(db, coll);
    if InCollection(k, db, coll) {
      assert Text(k)[..|p|] == p;
    }
    if StartsWith(Text(k), p) {
      var rest := Text(k)[|p|..];
      assert Text(k) == p + rest;
      assert p + rest == db + "/" + coll + "/" + rest == Text(Key(db, coll, rest));
      TextInjective(k, Key(db, coll, rest));
    }
  }

  /** Without that restriction a slash in a name lets one collection's prefix
      catch another's keys. */
  lemma SlashConfusesCollections()
    ensures Text(Key("d", "a/b", "p")) == Text(Key("d", "a", "b/p"))
    ensures StartsWith(Text(Key("d", "a/b", "p")), Prefix("d", "a")) && !InCollection(Key("d", "a/b", "p"), "d", "a")
  {
  }
}
