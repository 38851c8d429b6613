/** Catalog document ids: a type and a path of names in one flat string. */
module Naming {
  import opened Wrappers

  // ---------- names ----------

  predicate IsNameStart(c: char) {
    'A' <= c <= 'Z' || 'a' <= c <= 'z' || c == '_'
  }

  predicate IsNameChar(c: char) {
    IsNameStart(c) || '0' <= c <= '9'
  }

  /** validate_name: the name pattern and the reserved name.  The "$" of the
      pattern also matches in front of one final newline. */
  predicate ValidName(name: string) {
    var core := if name != [] && name[|name| - 1] == '\n' then name[..|name| - 1] else name;
    && 0 < |core| <= 255 && IsNameStart(core[0]) && (forall c <- core :: IsNameChar(c))
    && name != "xvector_meta"
  }

  ghost predicate Capital(c: char) {
    c in {'A', 'B', 'C', 'D', 'E', 'F', 'G', 'H', 'I', 'J', 'K', 'L', 'M', 'N', 'O', 'P', 'Q', 'R', 'S', 'T', 'U', 'V', 'W', 'X', 'Y', 'Z'}
  }

  ghost predicate Small(c: char) {
    c in {'a', 'b', 'c', 'd', 'e', 'f', 'g', 'h', 'i', 'j', 'k', 'l', 'm', 'n', 'o', 'p', 'q', 'r', 's', 't', 'u', 'v', 'w', 'x', 'y', 'z'}
  }

  ghost predicate Digit(c: char) {
    c in {'0', '1', '2', '3', '4', '5', '6', '7', '8', '9'}
  }

  /** `core` is a letter or underscore and up to 254 more letters, underscores and digits. */
  ghost predicate Named(core: string) {
    && 1 <= |core| <= 255 && (Capital(core[0]) || Small(core[0]) || core[0] == '_')
    && forall c <- core :: Capital(c) || Small(c) || c == '_' || Digit(c)
  }

  /** The valid names: those, with or without one final newline, but for the reserved one. */
  lemma ValidNameIff(name: string)
    ensures ValidName(name) <==> name != "xvector_meta" && exists core :: Named(core) && (name == core || name == core + "\n")
  {
    hide IsNameStart, IsNameChar, Capital, Small, Digit;
    var core := if name != [] && name[|name| - 1] == '\n' then name[..|name| - 1] else name;
    assert name == core || name == core + "\n";
    assert Named(core) <==> 0 < |core| <= 255 && IsNameStart(core[0]) && (forall c <- core :: IsNameChar(c)) by {
      forall c: char ensures (IsNameStart(c) <==> Capital(c) || Small(c) || c == '_')
                             && (IsNameChar(c) <==> Capital(c) || Small(c) || c == '_' || Digit(c)) {
        NameChars(c);
      }
    }
    forall w | Named(w) && (name == w || name == w + "\n") ensures w == core {
      assert w[|w| - 1] in w;
      NameChars('\n');
    }
  }

  lemma NameChars(c: char)
    ensures IsNameStart(c) <==> Capital(c) || Small(c) || c == '_'
    ensures IsNameChar(c) <==> Capital(c) || Small(c) || c == '_' || Digit(c)
    ensures c == '\n' ==> !IsNameChar(c)
  {
    hide Capital, Small, Digit;
    Capitals(c);
    SmallLetters(c);
    Digits(c);
  }

  lemma Capitals(c: char)
    ensures Capital(c) <==> 'A' <= c <= 'Z'
  {
  }

  lemma SmallLetters(c: char)
    ensures Small(c) <==> 'a' <= c <= 'z'
  {
  }

  lemma Digits(c: char)
    ensures Digit(c) <==> '0' <= c <= '9'
  {
  }

  predicate SepAt(s: string, i: int) {
    0 <= i < |s| - 1 && s[i] == '_' && s[i + 1] == '_'
  }

  /** No separator inside, and none can begin at the last character. */
  ghost predicate Clean(name: string) {
    && (forall i :: !SepAt(name, i))
    && (name != [] ==> name[|name| - 1] != '_')
  }

  // ---------- encoding ----------

  /** `natural_key.replace("/", "__")` */
  function Replace(s: string): string {
    if s == [] then [] else (if s[0] == '/' then "__" else [s[0]]) + Replace(s[1..])
  }

  lemma {:induction false} NoSlashLeft(s: string)
    ensures '/' !in Replace(s)
  {
    if s != [] {
      NoSlashLeft(s[1..]);
    }
  }

  function MakeId(docType: string, naturalKey: string): string {
    docType + "__" + Replace(naturalKey)
  }

  function Path(names: seq<string>): string
    requires names != []
  {
    if |names| == 1 then names[0] else names[0] + "/" + Path(names[1..])
  }

  function Joined(names: seq<string>): string
    requires names != []
  {
    if |names| == 1 then names[0] else names[0] + "__" + Joined(names[1..])
  }

  lemma {:induction false} ReplaceConcat(s: string, t: string)
    ensures Replace(s + t) == Replace(s) + Replace(t)
  {
    if s == [] {
      assert s + t == t;
    } else {
      assert (s + t)[1..] == s[1..] + t;
      ReplaceConcat(s[1..], t);
    }
  }

  lemma {:induction false} ReplaceSlashFree(s: string)
    requires '/' !in s
    ensures Replace(s) == s
  {
    if s != [] {
      ReplaceSlashFree(s[1..]);
      assert s == [s[0]] + s[1..];
    }
  }

  /** On slash-free names the encoding is the type and the names joined by the separator. */
  lemma {:induction false} ReplacePath(names: seq<string>)
    requires names != [] && forall n <- names :: '/' !in n
    ensures Replace(Path(names)) == Joined(names)
  {
    ReplaceSlashFree(names[0]);
    if |names| > 1 {
      ReplacePath(names[1..]);
      ReplaceConcat(names[0] + "/", Path(names[1..]));
      ReplaceConcat(names[0], "/");
      assert Replace("/") == "__" + Replace([]);
      assert names[0] + "/" + Path(names[1..]) == (names[0] + "/") + Path(names[1..]);
    }
  }

  // ---------- parsing at the leftmost separator ----------

  function Split(s: string): Option<(string, string)> {
    if |s| < 2 then None
    else if SepAt(s, 0) then Some(("", s[2..]))
    else
      match Split(s[1..])
      case None => None
      case Some(r) => Some(([s[0]] + r.0, r.1))
  }

  lemma {:induction false} SplitFindsFirst(s: string, i: nat)
    requires SepAt(s, i) && forall j | 0 <= j < i :: !SepAt(s, j)
    ensures Split(s) == Some((s[..i], s[i + 2..]))
  {
    if i > 0 {
      var t := s[1..];
      assert SepAt(t, i - 1) && forall j | 0 <= j < i - 1 :: !SepAt(t, j) by {
        forall j | 0 <= j < i - 1 ensures !SepAt(t, j) {
          assert !SepAt(s, j + 1);
        }
      }
      SplitFindsFirst(t, i - 1);
      assert !SepAt(s, 0);
      assert [s[0]] + t[..i - 1] == s[..i] && t[i - 1 + 2..] == s[i + 2..];
    }
  }

  /** Some separator at or before position n: the leftmost one is there too. */
  lemma {:induction false} FirstSep(s: string, n: nat) returns (i: nat)
    requires SepAt(s, n)
    ensures i <= n && SepAt(s, i) && forall j | 0 <= j < i :: !SepAt(s, j)
  {
    i := 0;
    while !SepAt(s, i)
      invariant i <= n && forall j | 0 <= j < i :: !SepAt(s, j)
      decreases n - i
    {
      i := i + 1;
    }
  }

  /** Splitting undoes one joining exactly when the first name is clean. */
  lemma SplitJoinIff(a: string, rest: string)
    ensures Split(a + "__" + rest) == Some((a, rest)) <==> Clean(a)
  {
    var s := a + "__" + rest;
    assert s[|a|] == '_' && s[|a| + 1] == '_' && s[..|a|] == a && s[|a| + 2..] == rest;
    assert SepAt(s, |a|);
    var i := FirstSep(s, |a|);
    SplitFindsFirst(s, i);
    if Clean(a) {
      forall j | 0 <= j < |a| ensures !SepAt(s, j) {
        assert !SepAt(a, j) && s[j] == a[j];
        assert j + 1 < |a| ==> s[j + 1] == a[j + 1];
      }
      assert i == |a|;
    } else {
      if j :| SepAt(a, j) {
        assert s[j] == a[j] && s[j + 1] == a[j + 1] && SepAt(s, j);
      } else {
        assert s[|a| - 1] == a[|a| - 1];
        assert SepAt(s, |a| - 1);
      }
      assert |s[..i]| < |a|;
    }
  }

  /** Read back a path of n names. */
  function Parse(s: string, n: nat): Option<seq<string>>
    requires n > 0
    decreases n
  {
    if n == 1 then Some([s])
    else
      match Split(s)
      case None => None
      case Some(r) =>
        match Parse(r.1, n - 1)
        case None => None
        case Some(names) => Some([r.0] + names)
  }

  /** Leftmost-separator parsing is the inverse of the encoding exactly when all
      names but the last are clean. */
  lemma {:induction false} ParseJoinedIff(names: seq<string>)
    requires names != []
    ensures Parse(Joined(names), |names|) == Some(names) <==> forall i | 0 <= i < |names| - 1 :: Clean(names[i])
  {
    if |names| > 1 {
      var rest := names[1..];
      var s := Joined(names);
      SplitJoinIff(names[0], Joined(rest));
      ParseJoinedIff(rest);
      assert [names[0]] + rest == names;
      assert (forall i | 0 <= i < |names| - 1 :: Clean(names[i]))
        <==> Clean(names[0]) && (forall i | 0 <= i < |rest| - 1 :: Clean(rest[i])) by {
        TailClean(names);
      }
      if Split(s).Some? && Split(s).value.0 == names[0] {
        SameHead(s, names[0], Joined(rest));
      }
      match Split(s)
      case None =>
      case Some(r) =>
        match Parse(r.1, |names| - 1)
        case None =>
        case Some(tail) => ConsIff(r.0, tail, names);
    } else {
      assert [names[0]] == names;
    }
  }

  lemma ConsIff(head: string, tail: seq<string>, names: seq<string>)
    requires names != []
    ensures [head] + tail == names <==> head == names[0] && tail == names[1..]
  {
  }

  lemma TailClean(names: seq<string>)
    requires |names| > 1
    ensures (forall i | 0 <= i < |names| - 1 :: Clean(names[i]))
      <==> Clean(names[0]) && (forall i | 0 <= i < |names[1..]| - 1 :: Clean(names[1..][i]))
  {
    assert forall i | 1 <= i < |names| :: names[i] == names[1..][i - 1];
  }

  lemma SameHead(s: string, a: string, rest: string)
    requires s == a + "__" + rest && Split(s).Some? && Split(s).value.0 == a
    ensures Split(s) == Some((a, rest))
  {
    SplitIsCut(s);
    assert s[|a| + 2..] == rest == Split(s).value.1;
  }

  lemma {:induction false} SplitIsCut(s: string)
    requires Split(s).Some?
    ensures s == Split(s).value.0 + "__" + Split(s).value.1
  {
    if SepAt(s, 0) {
      assert s == "__" + s[2..];
    } else {
      SplitIsCut(s[1..]);
      assert s == [s[0]] + s[1..];
    }
  }

  // ---------- what this means for document ids ----------

  const DOC_DATABASE := "database"
  const DOC_COLLECTION := "collection"
  const DOC_PARTITION := "partition"
  const DOC_ALIAS := "alias"
  const DOC_INDEX := "index"
  const DOC_LOAD := "load_state"
  const DOC_USER := "user"
  const DOC_ROLE := "role"
  const DOC_IMPORT := "import_job"

  predicate IsDocType(t: string) {
    t in {DOC_DATABASE, DOC_COLLECTION, DOC_PARTITION, DOC_ALIAS, DOC_INDEX, DOC_LOAD, DOC_USER, DOC_ROLE, DOC_IMPORT}
  }

  lemma DocTypesClean(t: string)
    requires IsDocType(t)
    ensures Clean(t)
  {
  }

  /** The document type can be read back from any id, whatever the key. */
  lemma TypeRecovered(t: string, naturalKey: string)
    requires IsDocType(t)
    ensures Split(MakeId(t, naturalKey)) == Some((t, Replace(naturalKey)))
  {
    DocTypesClean(t);
    SplitJoinIff(t, Replace(naturalKey));
  }

  /** No two documents share an id when the names are slash-free and all but the last are clean. */
  lemma MakeIdInjective(t: string, names: seq<string>, u: string, others: seq<string>)
    requires IsDocType(t) && IsDocType(u) && names != [] && |names| == |others|
    requires forall n <- names + others :: '/' !in n
    requires forall i | 0 <= i < |names| - 1 :: Clean(names[i]) && Clean(others[i])
    requires MakeId(t, Path(names)) == MakeId(u, Path(others))
    ensures t == u && names == others
  {
    TypeRecovered(t, Path(names));
    TypeRecovered(u, Path(others));
    assert forall n <- names :: n in names + others;
    assert forall n <- others :: n in names + others;
    ReplacePath(names);
    ReplacePath(others);
    ParseJoinedIff(names);
    ParseJoinedIff(others);
  }

  /** The name pattern alone is not enough: two collections in two databases,
      all four names valid, share one id. */
  lemma ValidNamesCollide()
    ensures ValidName("a_") && ValidName("b") && ValidName("a") && ValidName("_b")
    ensures MakeId(DOC_COLLECTION, Path(["a_", "b"])) == MakeId(DOC_COLLECTION, Path(["a", "_b"]))
    ensures ["a_", "b"] != ["a", "_b"]
  {
  }
}
