/** A batched import job: the documents it stores about itself, and the chunks
    it passes to `insert`. */
module ImportJob {
  import opened Wrappers

  /** One parsed entity. */
  datatype Row = Row(json: string)

  datatype State = Pending | Downloading | Parsing | Importing | Completed | Failed

  datatype Job = Job(state: State, progress: nat, imported: nat, total: nat)

  const NEW_JOB := Job(Pending, 0, 0, 0)

  /** A source file: whether it is fetched first and whether that works, and what
      parsing it gives. */
  datatype File = File(remote: bool, fetched: bool, rows: Option<seq<Row>>)

  const BATCH := 500

  /** The first row of the k-th chunk. */
  function Start(k: nat): nat {
    500 * k
  }

  // ---------- what the job should do ----------

  function Chunks(rows: seq<Row>): seq<seq<Row>> {
    if |rows| <= BATCH then (if rows == [] then [] else [rows])
    else [rows[..BATCH]] + Chunks(rows[BATCH..])
  }

  function Flatten(chunks: seq<seq<Row>>): seq<Row> {
    if chunks == [] then [] else Flatten(chunks[..|chunks| - 1]) + chunks[|chunks| - 1]
  }

  /** How many inserts in a row succeed, from the n-th on. */
  function Succeed(ok: nat -> bool, n: nat, total: nat): (k: nat)
    requires n <= total
    ensures n <= k <= total && (k < total ==> !ok(k)) && forall i | n <= i < k :: ok(i)
    decreases total - n
  {
    if n == total || !ok(n) then n else Succeed(ok, n + 1, total)
  }

  function Percent(imported: nat, total: nat): nat {
    imported * 100 / (if total > 1 then total else 1)
  }

  /** The stored document after k chunks. */
  function AfterChunks(rows: seq<Row>, k: nat): Job
    requires k <= |Chunks(rows)|
  {
    var imported := |Flatten(Chunks(rows)[..k])|;
    Job(Importing, if k == 0 then 0 else Percent(imported, |rows|), imported, |rows|)
  }

  /** The handler stores the failed job, and so does the thread that ran it. */
  function FailedTwice(job: Job): seq<Job> {
    [job.(state := Failed), job.(state := Failed)]
  }

  /** The documents stored while importing, up to the one after k chunks. */
  function Steps(rows: seq<Row>, k: nat): (steps: seq<Job>)
    requires k <= |Chunks(rows)|
    ensures |steps| == k + 1
  {
    if k == 0 then [AfterChunks(rows, 0)] else Steps(rows, k - 1) + [AfterChunks(rows, k)]
  }

  function ImportLog(rows: seq<Row>, ok: nat -> bool): seq<Job> {
    var n := |Chunks(rows)|;
    var k := Succeed(ok, 0, n);
    Steps(rows, k) + if k == n then [Job(Completed, 100, |rows|, |rows|)] else FailedTwice(AfterChunks(rows, k))
  }

  function Repeat(job: Job, n: nat): seq<Job> {
    seq(n, _ => job)
  }

  predicate NotFetched(f: File) {
    f.remote && !f.fetched
  }

  function Remotes(files: seq<File>): nat {
    if files == [] then 0 else Remotes(files[..|files| - 1]) + if files[|files| - 1].remote then 1 else 0
  }

  function ParseAll(files: seq<File>): Option<seq<Row>> {
    if files == [] then Some([])
    else
      match (ParseAll(files[..|files| - 1]), files[|files| - 1].rows)
      case (Some(a), Some(b)) => Some(a + b)
      case _ => None
  }

  function AllFetched(files: seq<File>): bool {
    forall f <- files :: !NotFetched(f)
  }

  /** Every document the job stores, in order. */
  function Log(files: seq<File>, ok: nat -> bool): seq<Job> {
    var downloading := NEW_JOB.(state := Downloading);
    if !AllFetched(files) then Repeat(downloading, Remotes(files[..FirstBad(files) + 1])) + FailedTwice(downloading)
    else
      Repeat(downloading, Remotes(files)) + LogFetched(files, ok)
  }

  function LogFetched(files: seq<File>, ok: nat -> bool): seq<Job> {
    var parsing := NEW_JOB.(state := Parsing);
    [parsing]
    + match ParseAll(files)
      case None => FailedTwice(parsing)
      case Some(rows) => ImportLog(rows, ok)
  }

  /** The chunks passed to insert: all of them, or those up to the one that raises. */
  function Passed(files: seq<File>, ok: nat -> bool): seq<seq<Row>> {
    if AllFetched(files) && ParseAll(files).Some? then
      var chunks := Chunks(ParseAll(files).value);
      var k := Succeed(ok, 0, |chunks|);
      chunks[..if k < |chunks| then k + 1 else k]
    else []
  }

  function FirstBad(files: seq<File>): (i: nat)
    requires !AllFetched(files)
    ensures i < |files| && NotFetched(files[i]) && AllFetched(files[..i])
  {
    if NotFetched(files[0]) then 0
    else
      assert AllFetched(files[1..]) ==> AllFetched(files);
      1 + FirstBad(files[1..])
  }

  // ---------- the job as it runs ----------

  class ImportRun {
    var job: Job
    var stored: seq<Job>          // put_import_job, call by call
    var passed: seq<seq<Row>>     // the chunks passed to insert

    constructor ()
      ensures job == NEW_JOB && stored == [NEW_JOB] && passed == []
    {
      job := NEW_JOB;
      stored := [NEW_JOB];
      passed := [];
    }

    method Put()
      modifies this`stored
      ensures stored == old(stored) + [job]
    {
      stored := stored + [job];
    }

    method Download(files: seq<File>) returns (fetched: bool)
      requires job == NEW_JOB
      modifies this`job, this`stored
      ensures fetched == AllFetched(files)
      ensures fetched ==> job in {NEW_JOB, NEW_JOB.(state := Downloading)}
      ensures fetched ==> stored == old(stored) + Repeat(NEW_JOB.(state := Downloading), Remotes(files))
      ensures !fetched ==> job == NEW_JOB.(state := Downloading)
      ensures !fetched ==> stored == old(stored) + Repeat(NEW_JOB.(state := Downloading), Remotes(files[..FirstBad(files) + 1]))
    {
      for i := 0 to |files|
        invariant AllFetched(files[..i]) && job in {NEW_JOB, NEW_JOB.(state := Downloading)}
        invariant stored == old(stored) + Repeat(NEW_JOB.(state := Downloading), Remotes(files[..i]))
      {
        assert files[..i + 1][..i] == files[..i];
        if files[i].remote {
          job := job.(state := Downloading);
          Put();
          if !files[i].fetched {
            FirstBadIs(files, i);
            return false;
          }
        }
      }
      assert files[..|files|] == files;
      return true;
    }

    method Parse(files: seq<File>) returns (rows: Option<seq<Row>>)
      requires job in {NEW_JOB, NEW_JOB.(state := Downloading)}
      modifies this`job, this`stored
      ensures rows == ParseAll(files)
      ensures stored == old(stored) + [NEW_JOB.(state := Parsing)] && job == NEW_JOB.(state := Parsing)
    {
      job := job.(state := Parsing);
      Put();
      var all: seq<Row> := [];
      for i := 0 to |files|
        invariant ParseAll(files[..i]) == Some(all)
      {
        assert files[..i + 1][..i] == files[..i];
        if files[i].rows.None? {
          ParseFails(files, i);
          return None;
        }
        all := all + files[i].rows.value;
      }
      assert files[..|files|] == files;
      return Some(all);
    }

    /** From the first document of the import to the last. */
    method ImportRows(rows: seq<Row>, ok: nat -> bool) returns (succeeded: bool)
      requires job == NEW_JOB.(state := Parsing)
      modifies this
      ensures var n, k := |Chunks(rows)|, Succeed(ok, 0, |Chunks(rows)|);
              && (succeeded <==> k == n)
              && passed == old(passed) + Chunks(rows)[..if k < n then k + 1 else k]
              && stored == old(stored) + Steps(rows, k) + (if k == n then [Job(Completed, 100, |rows|, |rows|)] else [])
              && (k < n ==> job == AfterChunks(rows, k))
    {
      job := job.(total := |rows|, state := Importing);
      Put();
      assert job == AfterChunks(rows, 0);
      ghost var k := Succeed(ok, 0, |Chunks(rows)|);
      StepsAre(rows, k, 0);
      assert Steps(rows, k) == [job] + Steps(rows, k)[1..];
      succeeded := InsertAll(rows, ok);
      if succeeded {
        ChunksCover(rows);
        assert Chunks(rows)[..|Chunks(rows)|] == Chunks(rows);
        job := job.(state := Completed, progress := 100);
        Put();
      }
    }

    /** The loop; `ok(n)` says whether the n-th insert succeeds. */
    method InsertAll(rows: seq<Row>, ok: nat -> bool) returns (succeeded: bool)
      requires job == AfterChunks(rows, 0)
      modifies this
      ensures var n, k := |Chunks(rows)|, Succeed(ok, 0, |Chunks(rows)|);
              && (succeeded <==> k == n)
              && passed == old(passed) + Chunks(rows)[..if k < n then k + 1 else k]
              && stored == old(stored) + Steps(rows, k)[1..]
              && job == AfterChunks(rows, k)
    {
      hide Percent, Steps, Chunks, Flatten, Succeed;
      assert Steps(rows, 0)[1..] == [];
      NoChunkYet(rows);
      var imported, i: nat := 0, 0;
      var k: nat := 0;   // inserts so far
      while i < |rows|
        invariant ChunkAt(rows, k, i) && imported == |Flatten(Chunks(rows)[..k])| && job == AfterChunks(rows, k)
        invariant forall m | 0 <= m < k :: ok(m)
        invariant passed == old(passed) + Chunks(rows)[..k]
        invariant stored == old(stored) + Steps(rows, k)[1..]
        decreases |rows| - i
      {
        var chunk := rows[i..if i + BATCH <= |rows| then i + BATCH else |rows|];
        NextChunk(rows, k, i);
        NextStep(rows, k);
        passed := passed + [chunk];
        if !ok(k) {
          SucceedIs(ok, 0, k, |Chunks(rows)|);
          return false;
        }
        imported := imported + |chunk|;
        job := job.(imported := imported, progress := Percent(imported, job.total));
        assert job == AfterChunks(rows, k + 1);
        Put();
        k := k + 1;
        i := i + BATCH;
      }
      LastChunk(rows, k, i);
      SucceedAll(ok, 0, k);
      return true;
    }

    /** _run_job_async: a failed job is stored before the exception is raised again. */
    method RunAsync(files: seq<File>, ok: nat -> bool) returns (raised: bool)
      requires job == NEW_JOB
      modifies this
      ensures raised ==> job.state == Failed
      ensures stored + (if raised then [job] else []) == old(stored) + Log(files, ok)
      ensures passed == old(passed) + Passed(files, ok)
    {
      raised := Attempt(files, ok);
      if raised {
        StoreFailure();
      }
    }

    /** The `try` block. */
    method Attempt(files: seq<File>, ok: nat -> bool) returns (raised: bool)
      requires job == NEW_JOB
      modifies this
      ensures stored + (if raised then FailedTwice(job) else []) == old(stored) + Log(files, ok)
      ensures passed == old(passed) + Passed(files, ok)
    {
      hide Log, LogFetched, Passed;
      LogParts(files, ok);
      var fetched := Download(files);
      if !fetched {
        return true;
      }
      raised := ImportFetched(files, ok);
    }

    /** What follows the downloads, up to an exception. */
    method ImportFetched(files: seq<File>, ok: nat -> bool) returns (raised: bool)
      requires job in {NEW_JOB, NEW_JOB.(state := Downloading)} && AllFetched(files)
      modifies this
      ensures stored + (if raised then FailedTwice(job) else []) == old(stored) + LogFetched(files, ok)
      ensures passed == old(passed) + Passed(files, ok)
    {
      hide Percent, Steps, AfterChunks;
      var rows := Parse(files);
      if rows.None? {
        return true;
      }
      var succeeded := ImportRows(rows.value, ok);
      return !succeeded;
    }

    method StoreFailure()
      modifies this`job, this`stored
      ensures job.state == Failed && stored + [job] == old(stored) + FailedTwice(old(job))
    {
      job := job.(state := Failed);
      Put();
    }

    /** _run_job: the thread stores the failed job once more. */
    method Run(files: seq<File>, ok: nat -> bool)
      requires job == NEW_JOB
      modifies this
      ensures stored == old(stored) + Log(files, ok) && passed == old(passed) + Passed(files, ok)
    {
      var raised := RunAsync(files, ok);
      if raised {
        job := job.(state := Failed);
        Put();
      }
    }
  }

  lemma {:induction false} FirstBadIs(files: seq<File>, i: nat)
    requires i < |files| && NotFetched(files[i]) && AllFetched(files[..i])
    ensures !AllFetched(files) && FirstBad(files) == i
  {
  }

  lemma {:induction false} ParseFails(files: seq<File>, i: nat)
    requires i < |files| && files[i].rows.None?
    ensures ParseAll(files) == None
    decreases |files|
  {
    if i < |files| - 1 {
      ParseFails(files[..|files| - 1], i);
    }
  }

  lemma {:induction false} SucceedIs(ok: nat -> bool, n: nat, k: nat, total: nat)
    requires n <= k < total && !ok(k) && forall m | n <= m < k :: ok(m)
    ensures Succeed(ok, n, total) == k
    decreases total - n
  {
  }

  lemma {:induction false} SucceedAll(ok: nat -> bool, n: nat, total: nat)
    requires n <= total && forall m | n <= m < total :: ok(m)
    ensures Succeed(ok, n, total) == total
    decreases total - n
  {
  }

  lemma LogParts(files: seq<File>, ok: nat -> bool)
    ensures var downloading := NEW_JOB.(state := Downloading);
            if AllFetched(files) then
              forall before :: before + Log(files, ok) == (before + Repeat(downloading, Remotes(files))) + LogFetched(files, ok)
            else
              && Passed(files, ok) == []
              && forall before ::
                before + Log(files, ok) == (before + Repeat(downloading, Remotes(files[..FirstBad(files) + 1]))) + FailedTwice(downloading)
  {
  }

  // ---------- chunks ----------

  /** The k-th chunk begins at row i, or there is none and the rows are used up. */
  ghost predicate ChunkAt(rows: seq<Row>, k: nat, i: nat) {
    i == Start(k) && k <= |Chunks(rows)| && (i < |rows| <==> k < |Chunks(rows)|)
  }

  /** The k-th chunk is the k-th slice of 500 rows. */
  lemma {:induction false} ChunkIs(rows: seq<Row>, k: nat)
    ensures k < |Chunks(rows)| <==> Start(k) < |rows|
    ensures k < |Chunks(rows)| ==>
              Chunks(rows)[k] == rows[Start(k)..if Start(k + 1) <= |rows| then Start(k + 1) else |rows|]
  {
    if |rows| > BATCH && k > 0 {
      var rest := rows[BATCH..];
      ChunkIs(rest, k - 1);
      assert Start(k) == BATCH + Start(k - 1);
      if Start(k) < |rows| {
        var end := if Start(k) <= |rest| then Start(k) else |rest|;
        assert rest[Start(k - 1)..end] == rows[Start(k)..BATCH + end];
      }
    }
  }

  lemma NextChunk(rows: seq<Row>, k: nat, i: nat)
    requires ChunkAt(rows, k, i) && i < |rows|
    ensures Chunks(rows)[k] == rows[i..if i + BATCH <= |rows| then i + BATCH else |rows|]
    ensures ChunkAt(rows, k + 1, i + BATCH)
    ensures Flatten(Chunks(rows)[..k + 1]) == Flatten(Chunks(rows)[..k]) + Chunks(rows)[k]
  {
    hide Chunks, Flatten;
    ChunkIs(rows, k);
    ChunkIs(rows, k + 1);
    FlattenOneMore(Chunks(rows), k);
  }

  lemma FlattenOneMore(chunks: seq<seq<Row>>, k: nat)
    requires k < |chunks|
    ensures Flatten(chunks[..k + 1]) == Flatten(chunks[..k]) + chunks[k]
  {
    assert chunks[..k + 1][..k] == chunks[..k];
  }

  lemma NoChunkYet(rows: seq<Row>)
    ensures ChunkAt(rows, 0, 0) && Flatten(Chunks(rows)[..0]) == []
  {
  }

  lemma NextStep(rows: seq<Row>, k: nat)
    requires k < |Chunks(rows)|
    ensures Chunks(rows)[..k + 1] == Chunks(rows)[..k] + [Chunks(rows)[k]]
    ensures Steps(rows, k + 1)[1..] == Steps(rows, k)[1..] + [AfterChunks(rows, k + 1)]
  {
  }

  lemma LastChunk(rows: seq<Row>, k: nat, i: nat)
    requires ChunkAt(rows, k, i) && i >= |rows|
    ensures k == |Chunks(rows)|
  {
  }

  /** The first k chunks are the first rows. */
  lemma {:induction false} ChunksPrefix(rows: seq<Row>, k: nat)
    requires k <= |Chunks(rows)|
    ensures Flatten(Chunks(rows)[..k]) == rows[..if Start(k) <= |rows| then Start(k) else |rows|]
  {
    if k > 0 {
      ChunksPrefix(rows, k - 1);
      ChunkIs(rows, k - 1);
      assert Chunks(rows)[..k][..k - 1] == Chunks(rows)[..k - 1];
    }
  }

  /** The chunks, in order, are exactly the rows. */
  lemma ChunksCover(rows: seq<Row>)
    ensures Flatten(Chunks(rows)) == rows
    ensures forall k | 0 <= k < |Chunks(rows)| :: 0 < |Chunks(rows)[k]| <= 500 && (k < |Chunks(rows)| - 1 ==> |Chunks(rows)[k]| == 500)
  {
    var n := |Chunks(rows)|;
    ChunksPrefix(rows, n);
    ChunkIs(rows, n);
    assert Chunks(rows)[..n] == Chunks(rows);
    forall k | 0 <= k < n ensures 0 < |Chunks(rows)[k]| <= BATCH && (k < n - 1 ==> |Chunks(rows)[k]| == BATCH) {
      ChunkIs(rows, k);
      ChunkIs(rows, k + 1);
    }
  }

  // ---------- what a run guarantees ----------

  predicate Terminal(job: Job) {
    job.state == Completed || job.state == Failed
  }

  /** Two stored documents, the later one second. */
  ghost predicate Follows(a: Job, b: Job) {
    && a.progress <= b.progress <= 100 && a.imported <= b.imported
    && (Terminal(a) ==> b == a)
  }

  ghost predicate Advancing(log: seq<Job>) {
    && (forall i | 0 <= i < |log| :: log[i].progress <= 100)
    && forall i, j | 0 <= i < j < |log| :: Follows(log[i], log[j])
  }

  lemma PercentGrows(a: nat, b: nat, total: nat)
    requires a <= b <= total
    ensures Percent(a, total) <= Percent(b, total) <= 100
  {
    var d := if total > 1 then total else 1;
    DivGrows(a * 100, b * 100, d);
    DivGrows(b * 100, 100 * d, d);
    DivExact(100, d);
  }

  lemma DivGrows(a: nat, b: nat, d: nat)
    requires a <= b && d > 0
    ensures a / d <= b / d
  {
    var q, p := a / d, b / d;
    assert q * d <= a && b < (p + 1) * d;
    assert q >= p + 1 ==> q * d >= (p + 1) * d;
  }

  lemma DivExact(q: nat, d: nat)
    requires d > 0
    ensures (q * d) / d == q
  {
    var x := (q * d) / d;
    assert x * d <= q * d < (x + 1) * d;
    assert x >= q + 1 ==> x * d >= (q + 1) * d;
    assert x <= q - 1 ==> (x + 1) * d <= q * d;
  }

  /** Stored while importing: what is reported is what the first k chunks hold. */
  lemma AfterChunksIs(rows: seq<Row>, k: nat)
    requires k <= |Chunks(rows)|
    ensures AfterChunks(rows, k).imported == if 500 * k <= |rows| then 500 * k else |rows|
    ensures AfterChunks(rows, k).progress == Percent(AfterChunks(rows, k).imported, |rows|)
    ensures var job, n := AfterChunks(rows, k), if rows == [] then 1 else |rows|;
            job.progress * n <= job.imported * 100 < (job.progress + 1) * n
  {
    ChunksPrefix(rows, k);
    DivFloor(AfterChunks(rows, k).imported * 100, if rows == [] then 1 else |rows|);
  }

  lemma DivFloor(a: nat, d: nat)
    requires d > 0
    ensures a / d * d <= a < (a / d + 1) * d
  {
  }

  lemma StepFollows(rows: seq<Row>, i: nat, j: nat)
    requires i <= j <= |Chunks(rows)|
    ensures Follows(AfterChunks(rows, i), AfterChunks(rows, j))
  {
    AfterChunksIs(rows, i);
    AfterChunksIs(rows, j);
    PercentGrows(AfterChunks(rows, i).imported, AfterChunks(rows, j).imported, |rows|);
  }

  lemma {:induction false} StepsAre(rows: seq<Row>, k: nat, i: nat)
    requires i <= k <= |Chunks(rows)|
    ensures Steps(rows, k)[i] == AfterChunks(rows, i)
  {
    if i < k {
      StepsAre(rows, k - 1, i);
    }
  }

  /** Adding a document that follows the last one. */
  lemma AdvancingSnoc(log: seq<Job>, job: Job)
    requires Advancing(log) && (log == [] || Follows(log[|log| - 1], job)) && job.progress <= 100
    ensures Advancing(log + [job])
  {
  }

  lemma {:induction false} StepsAdvance(before: seq<Job>, rows: seq<Row>, k: nat)
    requires k <= |Chunks(rows)| && Advancing(before)
    requires forall i | 0 <= i < |before| :: before[i].progress == 0 && before[i].imported == 0 && !Terminal(before[i])
    ensures Advancing(before + Steps(rows, k))
  {
    if k == 0 {
      AfterChunksIs(rows, 0);
      AdvancingSnoc(before, AfterChunks(rows, 0));
    } else {
      StepsAdvance(before, rows, k - 1);
      StepsAre(rows, k - 1, k - 1);
      StepFollows(rows, k - 1, k);
      AdvancingSnoc(before + Steps(rows, k - 1), AfterChunks(rows, k));
      assert before + Steps(rows, k - 1) + [AfterChunks(rows, k)] == before + Steps(rows, k);
    }
  }

  /** Two more documents that say the job failed. */
  lemma FailureAdvances(log: seq<Job>, job: Job)
    requires Advancing(log) && job.progress <= 100 && !Terminal(job)
    requires log == [] || log[|log| - 1] == job
    ensures Advancing(log + FailedTwice(job))
  {
  }

  lemma ImportAdvances(before: seq<Job>, rows: seq<Row>, ok: nat -> bool)
    requires Advancing(before)
    requires forall i | 0 <= i < |before| :: before[i].progress == 0 && before[i].imported == 0 && !Terminal(before[i])
    ensures Advancing(before + ImportLog(rows, ok))
  {
    var n := |Chunks(rows)|;
    var k := Succeed(ok, 0, n);
    StepsAdvance(before, rows, k);
    StepsAre(rows, k, k);
    AfterChunksIs(rows, k);
    StepFollows(rows, k, k);
    var log := before + Steps(rows, k);
    assert log[|log| - 1] == AfterChunks(rows, k);
    if k == n {
      ChunksPrefix(rows, n);
      AdvancingSnoc(log, Job(Completed, 100, |rows|, |rows|));
    } else {
      FailureAdvances(log, AfterChunks(rows, k));
    }
    assert before + ImportLog(rows, ok) == log + if k == n then [Job(Completed, 100, |rows|, |rows|)] else FailedTwice(AfterChunks(rows, k));
  }

  /** Over the whole life of a job: progress and imported rows never go down,
      progress never passes 100, and a completed or failed job stays as it is. */
  lemma JobAdvances(files: seq<File>, ok: nat -> bool)
    ensures Advancing([NEW_JOB] + Log(files, ok))
  {
    hide ImportLog, Percent;
    var downloading, parsing := NEW_JOB.(state := Downloading), NEW_JOB.(state := Parsing);
    if !AllFetched(files) {
      var n := Remotes(files[..FirstBad(files) + 1]);
      assert n > 0 by {
        assert files[..FirstBad(files) + 1][FirstBad(files)] == files[FirstBad(files)];
      }
      var log := [NEW_JOB] + Repeat(downloading, n);
      FailureAdvances(log, downloading);
      assert [NEW_JOB] + Log(files, ok) == log + FailedTwice(downloading);
    } else {
      var log := [NEW_JOB] + Repeat(downloading, Remotes(files)) + [parsing];
      match ParseAll(files)
      case None =>
        FailureAdvances(log, parsing);
        assert [NEW_JOB] + Log(files, ok) == log + FailedTwice(parsing);
      case Some(rows) =>
        ImportAdvances(log, rows, ok);
        assert [NEW_JOB] + Log(files, ok) == log + ImportLog(rows, ok);
    }
  }

  /** Everything could be fetched and parsed. */
  ghost predicate Readable(files: seq<File>) {
    && (forall f <- files :: f.remote ==> f.fetched)
    && (forall f <- files :: f.rows.Some?)
  }

  lemma {:induction false} ParseAllIff(files: seq<File>)
    ensures ParseAll(files).Some? <==> forall f <- files :: f.rows.Some?
  {
    if files != [] {
      var init := files[..|files| - 1];
      ParseAllIff(init);
      assert files == init + [files[|files| - 1]];
    }
  }

  /** The rows of the files one after the other. */
  lemma {:induction false} ParseAllAround(files: seq<File>, i: nat)
    requires i < |files| && ParseAll(files).Some?
    ensures ParseAll(files[..i]).Some? && files[i].rows.Some? && ParseAll(files[i + 1..]).Some? && ParseAll([]) == Some([])
    ensures ParseAll(files).value == ParseAll(files[..i]).value + files[i].rows.value + ParseAll(files[i + 1..]).value
  {
    var l := |files| - 1;
    if i == l {
      assert files[i + 1..] == [];
    } else {
      ParseAllAround(files[..l], i);
      assert files[..l][..i] == files[..i] && files[..l][i + 1..] == files[i + 1..][..l - i - 1];
    }
  }

  /** The job ends Completed exactly when every download, parse and insert worked;
      then every row was passed to insert, once and in order, and all of them are
      reported.  Otherwise it ends Failed and reports the rows of the chunks that
      succeeded, a prefix of the rows. */
  lemma JobOutcome(files: seq<File>, ok: nat -> bool)
    ensures var last, rows := Log(files, ok)[|Log(files, ok)| - 1], ParseAll(files).UnwrapOr([]);
            var n := |Chunks(rows)|;
            && (last.state == Completed || last.state == Failed)
            && (last.state == Completed <==> Readable(files) && forall i | 0 <= i < n :: ok(i))
            && (last.state == Completed ==>
                  Flatten(Passed(files, ok)) == rows && last == Job(Completed, 100, |rows|, |rows|))
            && (last.state == Failed && Readable(files) ==>
                  exists k :: FailedAt(rows, ok, k) && last.imported == |Flatten(Chunks(rows)[..k])| && Passed(files, ok) == Chunks(rows)[..k + 1])
            && (last.state == Failed && !Readable(files) ==> last.imported == 0 && Passed(files, ok) == [])
  {
    ParseAllIff(files);
    if AllFetched(files) && ParseAll(files).Some? {
      ImportOutcome(files, ok, ParseAll(files).value);
    }
  }

  // ---------- the stages ----------

  /** How many of the stored documents are in one state. */
  function Count(log: seq<Job>, s: State): nat {
    if log == [] then 0 else Count(log[..|log| - 1], s) + if log[|log| - 1].state == s then 1 else 0
  }

  lemma {:induction false} CountConcat(a: seq<Job>, b: seq<Job>, s: State)
    ensures Count(a + b, s) == Count(a, s) + Count(b, s)
  {
    if b == [] {
      assert a + b == a;
    } else {
      assert (a + b)[..|a + b| - 1] == a + b[..|b| - 1];
      CountConcat(a, b[..|b| - 1], s);
    }
  }

  lemma {:induction false} CountAll(log: seq<Job>, s: State, t: State)
    requires forall j <- log :: j.state == t
    ensures Count(log, s) == if s == t then |log| else 0
  {
    if log != [] {
      CountAll(log[..|log| - 1], s, t);
    }
  }

  /** The remote files the job tries to fetch: those with no failure before them. */
  ghost function Tried(files: seq<File>): set<int> {
    set i | 0 <= i < |files| && files[i].remote && forall j | 0 <= j < i && files[j].remote :: files[j].fetched
  }

  lemma {:induction false} RemotesCount(files: seq<File>)
    ensures Remotes(files) == |set i | 0 <= i < |files| && files[i].remote|
  {
    if files != [] {
      var l := |files| - 1;
      RemotesCount(files[..l]);
      var here := set i | 0 <= i < |files| && files[i].remote;
      var before := set i | 0 <= i < |files[..l]| && files[..l][i].remote;
      assert here == if files[l].remote then before + {l} else before;
    }
  }

  lemma TriedCount(files: seq<File>)
    ensures |Tried(files)| == if AllFetched(files) then Remotes(files) else Remotes(files[..FirstBad(files) + 1])
  {
    if AllFetched(files) {
      RemotesCount(files);
      assert forall j | 0 <= j < |files| :: !NotFetched(files[j]);
      assert Tried(files) == set i | 0 <= i < |files| && files[i].remote;
    } else {
      var b := FirstBad(files);
      var prefix := files[..b + 1];
      RemotesCount(prefix);
      assert forall j | 0 <= j < b :: files[..b][j] == files[j] && !NotFetched(files[..b][j]);
      assert Tried(files) == set i | 0 <= i < |prefix| && prefix[i].remote;
    }
  }

  /** What the job stores, counted: one document for each remote file tried, one
      before parsing, one before the import and one after each chunk that went
      in, and one at the end, or two when it failed. */
  lemma StoredDocuments(files: seq<File>, ok: nat -> bool)
    ensures var log, fetched := Log(files, ok), forall f <- files :: f.remote ==> f.fetched;
            && Count(log, Pending) == 0
            && Count(log, Downloading) == |Tried(files)|
            && Count(log, Parsing) == (if fetched then 1 else 0)
            && Count(log, Importing) == (if Readable(files) then 1 + Succeed(ok, 0, |Chunks(ParseAll(files).UnwrapOr([]))|) else 0)
            && Count(log, Completed) == (if log[|log| - 1].state == Completed then 1 else 0)
            && Count(log, Failed) == (if log[|log| - 1].state == Completed then 0 else 2)
  {
    hide Count, ParseAll, Steps, FirstBad, Remotes;
    TriedCount(files);
    ParseAllIff(files);
    JobOutcome(files, ok);
    forall s ensures Count(Log(files, ok), s) == LogCount(files, ok, s) {
      CountLog(files, ok, s);
    }
  }

  /** The same by the parts of the log. */
  ghost function LogCount(files: seq<File>, ok: nat -> bool, s: State): nat {
    var downloads := if s == Downloading then |Tried(files)| else 0;
    downloads + if AllFetched(files) then FetchedCount(files, ok, s) else if s == Failed then 2 else 0
  }

  ghost function FetchedCount(files: seq<File>, ok: nat -> bool, s: State): nat {
    (if s == Parsing then 1 else 0)
    + match ParseAll(files)
      case None => if s == Failed then 2 else 0
      case Some(rows) =>
        var k := Succeed(ok, 0, |Chunks(rows)|);
        (if s == Importing then k + 1 else 0)
        + if k == |Chunks(rows)| then (if s == Completed then 1 else 0) else (if s == Failed then 2 else 0)
  }

  lemma CountLog(files: seq<File>, ok: nat -> bool, s: State)
    ensures Count(Log(files, ok), s) == LogCount(files, ok, s)
  {
    hide Count, ParseAll, LogFetched, FirstBad, Remotes, FetchedCount;
    var downloading := NEW_JOB.(state := Downloading);
    TriedCount(files);
    var downloads := Repeat(downloading, |Tried(files)|);
    CountAll(downloads, s, Downloading);
    if AllFetched(files) {
      CountConcat(downloads, LogFetched(files, ok), s);
      CountFetched(files, ok, s);
    } else {
      CountConcat(downloads, FailedTwice(downloading), s);
      CountAll(FailedTwice(downloading), s, Failed);
    }
  }

  lemma CountFetched(files: seq<File>, ok: nat -> bool, s: State)
    ensures Count(LogFetched(files, ok), s) == FetchedCount(files, ok, s)
  {
    hide Count, ParseAll, Steps, Chunks, AfterChunks, Succeed;
    var parsing := NEW_JOB.(state := Parsing);
    CountAll([parsing], s, Parsing);
    match ParseAll(files)
    case None =>
      CountConcat([parsing], FailedTwice(parsing), s);
      CountAll(FailedTwice(parsing), s, Failed);
    case Some(rows) =>
      CountConcat([parsing], ImportLog(rows, ok), s);
      CountImport(rows, ok, s);
  }

  lemma CountImport(rows: seq<Row>, ok: nat -> bool, s: State)
    ensures var k := Succeed(ok, 0, |Chunks(rows)|);
            Count(ImportLog(rows, ok), s) == (if s == Importing then k + 1 else 0)
              + if k == |Chunks(rows)| then (if s == Completed then 1 else 0) else (if s == Failed then 2 else 0)
  {
    hide Count, Steps, Chunks, Succeed, AfterChunks;
    var n := |Chunks(rows)|;
    var k := Succeed(ok, 0, n);
    StepsImporting(rows, k);
    CountAll(Steps(rows, k), s, Importing);
    var last := if k == n then [Job(Completed, 100, |rows|, |rows|)] else FailedTwice(AfterChunks(rows, k));
    CountConcat(Steps(rows, k), last, s);
    CountAll(last, s, if k == n then Completed else Failed);
  }

  lemma {:induction false} StepsImporting(rows: seq<Row>, k: nat)
    requires k <= |Chunks(rows)|
    ensures forall j <- Steps(rows, k) :: j.state == Importing
  {
    if k > 0 {
      StepsImporting(rows, k - 1);
    }
  }

  lemma ImportOutcome(files: seq<File>, ok: nat -> bool, rows: seq<Row>)
    requires AllFetched(files) && ParseAll(files) == Some(rows)
    ensures var last, n, k := Log(files, ok)[|Log(files, ok)| - 1], |Chunks(rows)|, Succeed(ok, 0, |Chunks(rows)|);
            && (k == n ==> last == Job(Completed, 100, |rows|, |rows|) && Flatten(Passed(files, ok)) == rows)
            && (k < n ==> FailedAt(rows, ok, k) && last == AfterChunks(rows, k).(state := Failed)
                          && Passed(files, ok) == Chunks(rows)[..k + 1])
  {
    ChunksCover(rows);
    assert Chunks(rows)[..|Chunks(rows)|] == Chunks(rows);
  }

  /** The k-th insert is the first that fails. */
  ghost predicate FailedAt(rows: seq<Row>, ok: nat -> bool, k: int) {
    0 <= k < |Chunks(rows)| && !ok(k) && forall i | 0 <= i < k :: ok(i)
  }
}
