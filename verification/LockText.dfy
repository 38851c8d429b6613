/** The text of the error for a pending log file, and the test that tells lock
    conflicts from other errors by their text. */
module LockText {
  import opened Partitions
  import opened KeyText

  function Lower(s: string): string {
    seq(|s|, i requires 0 <= i < |s| => if 'A' <= s[i] <= 'Z' then (s[i] as int + 32) as char else s[i])
  }

  predicate Mentions(s: string, word: string) {
    exists i | 0 <= i <= |s| :: OccursAt(s, word, i)
  }

  predicate OccursAt(s: string, word: string, i: int) {
    0 <= i <= |s| - |word| && s[i..i + |word|] == word
  }

  /** _is_lock_error */
  predicate IsLockText(msg: string) {
    var s := Lower(msg);
    Mentions(s, "can't lock") || Mentions(s, "cannot lock") || (Mentions(s, "lock") && Mentions(s, "collection"))
  }

  // "pending WAL blocks read-only open: ", cut at the capitals and at its only "c"
  const WAL_BEFORE := "pending " + "WAL" + " blo" + "c" + OPEN + ": "
  const OPEN := "ks read-only open"
  const WAL_AFTER := ";" + FLUSH
  const FLUSH := " writer must flush/seal first"

  /** The text of the error for a pending log file. */
  function WalText(k: Key): string {
    WAL_BEFORE + Text(k) + WAL_AFTER
  }

  predicate WalErrorPassesForLock(k: Key) {
    IsLockText(WalText(k))
  }

  lemma LowerConcat(s: string, t: string)
    ensures Lower(s + t) == Lower(s) + Lower(t)
  {
  }

  /** A word holds neither of the characters that stand around the key. */
  predicate Plain(word: string) {
    word != [] && word[0] != ' ' && ':' !in word && ';' !in word
  }

  /** A plain word in `a: b;c` is in one of the three. */
  lemma MentionsApart(a: string, b: string, c: string, word: string)
    requires Plain(word)
    ensures Mentions(a + ": " + b + ";" + c, word) <==> Mentions(a, word) || Mentions(b, word) || Mentions(c, word)
  {
    var s := a + ": " + b + ";" + c;
    var p, q := |a|, |a| + 2 + |b|;
    assert s[..p] == a && s[p + 2..q] == b && s[q + 1..] == c;
    if i :| 0 <= i <= |s| && OccursAt(s, word, i) {
      assert s[p] == ':' && s[p + 1] == ' ' && s[q] == ';';
      assert s[i] == s[i..i + |word|][0];
      if i <= p < i + |word| {
        CharIn(s, word, i, p);
      } else if i <= q < i + |word| {
        CharIn(s, word, i, q);
      }
      if i + |word| <= p {
        Inside(a, s, word, i, 0);
      } else if i + |word| <= q {
        Inside(b, s, word, i, p + 2);
      } else {
        Inside(c, s, word, i, q + 1);
      }
    }
    hide Mentions;
    Within(a, s, word, 0);
    Within(b, s, word, p + 2);
    Within(c, s, word, q + 1);
  }

  lemma CharIn(s: string, word: string, i: int, p: nat)
    requires OccursAt(s, word, i) && i <= p < i + |word|
    ensures s[p] in word
  {
    assert s[i..i + |word|][p - i] == s[p];
  }

  lemma Inside(part: string, s: string, word: string, i: int, at: nat)
    requires OccursAt(s, word, i) && at <= i && i + |word| <= at + |part| <= |s| && s[at..at + |part|] == part
    ensures Mentions(part, word)
  {
    forall j | 0 <= j < |word| ensures part[i - at..i - at + |word|][j] == word[j] {
      assert s[at..at + |part|][i - at + j] == s[i + j] == s[i..i + |word|][j];
    }
    assert OccursAt(part, word, i - at);
  }

  lemma Within(part: string, s: string, word: string, at: nat)
    requires at + |part| <= |s| && s[at..at + |part|] == part
    ensures Mentions(part, word) ==> Mentions(s, word)
  {
    if i :| 0 <= i <= |part| && OccursAt(part, word, i) {
      forall j | 0 <= j < |word| ensures s[at + i..at + i + |word|][j] == word[j] {
        assert s[at..at + |part|][i + j] == part[i + j] == part[i..i + |word|][j];
      }
      assert OccursAt(s, word, at + i);
    }
  }

  const PENDING := "pending " + "wal" + " blo"
  const LOWER_BEFORE := PENDING + "c" + OPEN

  /** A word that begins with "c" and does not go on with "k" is in neither. */
  lemma NotInFixedParts(word: string)
    requires |word| >= 2 && word[0] == 'c' && word[1] != 'k'
    ensures !Mentions(LOWER_BEFORE, word) && !Mentions(FLUSH, word)
  {
    assert 'c' !in PENDING && OPEN[0] == 'k';
    NoCInOpen();
    if Mentions(FLUSH, word) {
      MentionedChar(FLUSH, word, 0);
    }
    if i :| 0 <= i <= |LOWER_BEFORE| && OccursAt(LOWER_BEFORE, word, i) {
      CutAtC(PENDING, OPEN, word, i);
    }
  }

  lemma NoCInOpen()
    ensures 'c' !in OPEN && 'c' !in FLUSH
  {
  }

  lemma CutAtC(a: string, b: string, word: string, i: int)
    requires |word| >= 2 && word[0] == 'c' && OccursAt(a + "c" + b, word, i)
    requires 'c' !in a && 'c' !in b && b != []
    ensures word[1] == b[0]
  {
    var s := a + "c" + b;
    assert s[i..i + |word|][0] == s[i] == 'c' && s[i..i + |word|][1] == s[i + 1];
    assert forall j | 0 <= j < |a| :: s[j] == a[j] && a[j] in a;
    assert forall j | |a| < j < |s| :: s[j] == b[j - |a| - 1] && b[j - |a| - 1] in b;
  }

  lemma MentionedChar(s: string, word: string, i: nat)
    requires i < |word| && Mentions(s, word)
    ensures word[i] in s
  {
    var j :| 0 <= j <= |s| && OccursAt(s, word, j);
    assert s[j..j + |word|][i] == s[j + i];
  }

  lemma LowerSame(s: string)
    requires forall c <- s :: !('A' <= c <= 'Z')
    ensures Lower(s) == s
  {
    assert forall i | 0 <= i < |s| :: s[i] in s;
  }

  lemma LowerPieces()
    ensures Lower("pending ") == "pending " && Lower("WAL") == "wal" && Lower(" blo") == " blo" && Lower("c") == "c"
    ensures Lower(OPEN) == OPEN && Lower(": ") == ": " && Lower(";") == ";" && Lower(FLUSH) == FLUSH
  {
    LowerSame("pending ");
    LowerSame(" blo");
    LowerSame(OPEN);
    LowerSame(FLUSH);
  }

  lemma WalTextLower(k: Key)
    ensures Lower(WalText(k)) == LOWER_BEFORE + ": " + Lower(Text(k)) + ";" + FLUSH
  {
    hide Text, Lower;
    LowerPieces();
    LowerConcat("pending ", "WAL");
    LowerConcat("pending " + "WAL", " blo");
    LowerConcat("pending " + "WAL" + " blo", "c");
    LowerConcat("pending " + "WAL" + " blo" + "c", OPEN);
    LowerConcat("pending " + "WAL" + " blo" + "c" + OPEN, ": ");
    LowerConcat(";", FLUSH);
    LowerConcat(WAL_BEFORE, Text(k));
    LowerConcat(WAL_BEFORE + Text(k), WAL_AFTER);
  }

  /** The error for a pending log file says "blocks", so it passes for a lock
      conflict exactly when the key mentions "collection", or itself says that
      something cannot be locked. */
  lemma WalErrorPassesIff(k: Key)
    ensures WalErrorPassesForLock(k) <==>
              Mentions(Lower(Text(k)), "collection") || Mentions(Lower(Text(k)), "can't lock") || Mentions(Lower(Text(k)), "cannot lock")
  {
    hide Mentions, Lower, Text;
    WalTextLower(k);
    MentionsApart(LOWER_BEFORE, Lower(Text(k)), FLUSH, "collection");
    MentionsApart(LOWER_BEFORE, Lower(Text(k)), FLUSH, "can't lock");
    MentionsApart(LOWER_BEFORE, Lower(Text(k)), FLUSH, "cannot lock");
    MentionsApart(LOWER_BEFORE, Lower(Text(k)), FLUSH, "lock");
    NotInFixedParts("collection");
    NotInFixedParts("can't lock");
    NotInFixedParts("cannot lock");
    SaysBlocks();
  }

  lemma SaysBlocks()
    ensures Mentions(LOWER_BEFORE, "lock")
  {
    assert LOWER_BEFORE[13..17] == "lock";
    assert OccursAt(LOWER_BEFORE, "lock", 13);
  }

  /** Without a space in the key only the first of the three can be. */
  lemma WalErrorPassesForNamesIff(k: Key)
    requires ' ' !in Text(k)
    ensures WalErrorPassesForLock(k) <==> Mentions(Lower(Text(k)), "collection")
  {
    hide IsLockText;
    WalErrorPassesIff(k);
    assert ' ' !in Lower(Text(k));
    if Mentions(Lower(Text(k)), "can't lock") {
      MentionedChar(Lower(Text(k)), "can't lock", 5);
    }
    if Mentions(Lower(Text(k)), "cannot lock") {
      MentionedChar(Lower(Text(k)), "cannot lock", 6);
    }
  }

  /** Inputs: a collection whose name says "Collection", one whose name does not,
      and a partition name with a space. */
  lemma WalErrorInputs()
    ensures WalErrorPassesForLock(Key("d", "Collection", "p"))
    ensures !WalErrorPassesForLock(Key("d", "a", "p"))
    ensures WalErrorPassesForLock(Key("d", "a", "cannot lock"))
  {
    hide IsLockText, Lower;
    WalErrorPassesIff(Key("d", "Collection", "p"));
    WalErrorPassesIff(Key("d", "a", "cannot lock"));
    InputTexts();
    InText("d/", "collection", "/p");
    InText("d/a/", "cannot lock", "");
    assert ' ' !in "d/a/p";
    WalErrorPassesForNamesIff(Key("d", "a", "p"));
  }

  lemma InText(a: string, word: string, c: string)
    ensures Mentions(a + word + c, word)
  {
    var s := a + word + c;
    assert s[|a|..|a| + |word|] == word;
    assert OccursAt(s, word, |a|);
  }

  lemma InputTexts()
    ensures Lower(Text(Key("d", "Collection", "p"))) == "d/" + "collection" + "/p"
    ensures Lower(Text(Key("d", "a", "cannot lock"))) == "d/a/" + "cannot lock" + ""
    ensures Text(Key("d", "a", "p")) == "d/a/p" && !Mentions(Lower("d/a/p"), "collection")
  {
  }
}
