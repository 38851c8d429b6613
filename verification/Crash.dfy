/** The metadata store step by step: engine write, cache update, temporary file,
    atomic replace; and what a crash after any step leaves to `open`. */
module Crash {
  import opened Wrappers
  import opened Relations

  type Docs = map<string, Doc>

  /** The temporary snapshot file: absent, half written, or complete. */
  datatype Tmp = NoTmp | Torn | Whole(docs: Docs)

  /** What survives a crash is engine, snapshot and tmp. */
  datatype Store = Store(engine: Docs, snapshot: Option<Docs>, tmp: Tmp, cache: Docs, isOpen: bool)

  /** A delete that the engine refuses raises nothing: the exception is swallowed. */
  datatype Change = Upsert(id: string, doc: Doc) | Remove(id: string) | RefusedRemove(id: string)

  function Changed(m: Docs, ch: Change): Docs {
    match ch
    case Upsert(id, doc) => m[id := doc]
    case Remove(id) => m - {id}
    case RefusedRemove(id) => m - {id}
  }

  function EngineChanged(m: Docs, ch: Change): Docs {
    if ch.RefusedRemove? then m else Changed(m, ch)
  }

  const STEPS: nat := 5

  /** The store after the first n steps of a change. */
  function After(s: Store, ch: Change, n: nat): Store
    requires n <= STEPS
  {
    if n == 0 then s
    else
      var p := After(s, ch, n - 1);
      if n == 1 then p.(engine := EngineChanged(p.engine, ch))
      else if n == 2 then p.(cache := Changed(p.cache, ch))
      else if n == 3 then p.(tmp := Torn)
      else if n == 4 then p.(tmp := Whole(p.cache))
      else p.(snapshot := Some(p.cache), tmp := NoTmp)
  }

  function Crashed(s: Store): Store {
    s.(cache := map[], isOpen := false)
  }

  /** `open` up to its snapshot write: rebuild the cache from the engine (the
      scan covers everything or fails whole), or fall back to the snapshot. */
  function Rebuilt(s: Store, scanOk: bool): Store {
    var cache := if scanOk then s.engine else map[];
    if cache == map[] && s.snapshot.Some? then s.(cache := s.snapshot.value) else s.(cache := cache)
  }

  /** Whether `open` writes the snapshot. */
  predicate Republishes(s: Store, scanOk: bool) {
    s.snapshot.None? || (scanOk && s.engine != map[])
  }

  const OPEN_STEPS: nat := 4

  /** The store after the first n steps of `open`. */
  function Opening(s: Store, scanOk: bool, n: nat): Store
    requires n <= OPEN_STEPS
  {
    if n == 0 then s
    else if n == 1 then Rebuilt(s, scanOk)
    else
      var p := Opening(s, scanOk, n - 1);
      if !Republishes(s, scanOk) then (if n == OPEN_STEPS then p.(isOpen := true) else p)
      else if n == 2 then p.(tmp := Torn)
      else if n == 3 then p.(tmp := Whole(p.cache))
      else p.(snapshot := Some(p.cache), tmp := NoTmp, isOpen := true)
  }

  function Open(s: Store, scanOk: bool): Store {
    Opening(s, scanOk, OPEN_STEPS)
  }

  /** Engine, cache and snapshot agree. */
  predicate Synced(s: Store) {
    s.isOpen && s.engine == s.cache && s.snapshot == Some(s.cache)
  }

  lemma UnrollAfter(s: Store, ch: Change)
    ensures After(s, ch, 0) == s
    ensures After(s, ch, 1) == s.(engine := EngineChanged(s.engine, ch))
    ensures After(s, ch, 2) == After(s, ch, 1).(cache := Changed(s.cache, ch))
    ensures After(s, ch, 3) == After(s, ch, 2).(tmp := Torn)
    ensures After(s, ch, 4) == After(s, ch, 2).(tmp := Whole(Changed(s.cache, ch)))
    ensures After(s, ch, 5) == After(s, ch, 2).(snapshot := Some(Changed(s.cache, ch)), tmp := NoTmp)
  {
  }

  lemma UnrollOpening(s: Store, scanOk: bool)
    ensures Opening(s, scanOk, 1) == Rebuilt(s, scanOk)
    ensures var p := Rebuilt(s, scanOk);
            if Republishes(s, scanOk) then
              && Opening(s, scanOk, 2) == p.(tmp := Torn)
              && Opening(s, scanOk, 3) == p.(tmp := Whole(p.cache))
              && Opening(s, scanOk, 4) == p.(snapshot := Some(p.cache), tmp := NoTmp, isOpen := true)
            else
              Opening(s, scanOk, 2) == p && Opening(s, scanOk, 3) == p && Opening(s, scanOk, 4) == p.(isOpen := true)
  {
  }

  /** A scan that fails or finds nothing never touches a snapshot that is there:
      it is read, and not even a temporary file is written. */
  lemma {:induction false} OpenKeepsSnapshot(s: Store, scanOk: bool, n: nat)
    requires n <= OPEN_STEPS && s.snapshot.Some? && (scanOk ==> s.engine == map[])
    ensures var p := Opening(s, scanOk, n);
            p.snapshot == s.snapshot && p.tmp == s.tmp && p.engine == s.engine && (n > 0 ==> p.cache == s.snapshot.value)
  {
    if n > 1 {
      OpenKeepsSnapshot(s, scanOk, n - 1);
    }
  }

  /** A crash after any step of a change, followed by `open`, recovers exactly
      the state before or after that change: after it as soon as the engine has
      it, or, when the scan fails or the engine is empty, as soon as the
      snapshot has it. */
  lemma CrashRecoversBeforeOrAfter(s: Store, ch: Change, n: nat, scanOk: bool)
    requires Synced(s) && n <= STEPS
    ensures var c := Crashed(After(s, ch, n));
            var r := Open(c, scanOk);
            && r.isOpen
            && r.cache == (if scanOk && c.engine != map[] then (if n >= 1 then EngineChanged(s.cache, ch) else s.cache)
                           else (if n >= STEPS then Changed(s.cache, ch) else s.cache))
            && r.snapshot == Some(r.cache)
            && (Synced(r) <==> r.cache == c.engine)
  {
    UnrollAfter(s, ch);
    UnrollOpening(Crashed(After(s, ch, n)), scanOk);
  }

  /** The state recovered is in sync again exactly when the scan succeeded on a
      non-empty engine, or the crash left engine and snapshot equal. */
  lemma RecoversInSyncIff(s: Store, ch: Change, n: nat, scanOk: bool)
    requires Synced(s) && n <= STEPS
    ensures var c := Crashed(After(s, ch, n));
            Synced(Open(c, scanOk)) <==> (scanOk && c.engine != map[]) || Some(c.engine) == c.snapshot
  {
    UnrollAfter(s, ch);
    UnrollOpening(Crashed(After(s, ch, n)), scanOk);
  }

  /** What goes wrong otherwise: after a failed scan the engine keeps a document
      that the cache has lost, and the next recovery brings it back.  The state
      then is neither before nor after any change made since. */
  lemma FailedScanResurrects(x: Doc)
    ensures var s := Store(map["a" := x], Some(map["a" := x]), NoTmp, map["a" := x], true);
            var r := Open(Crashed(After(s, Upsert("b", x), 1)), false);
            var t := After(r, Upsert("c", x), STEPS);
            var u := Open(Crashed(t), true);
            && Synced(s) && r.cache == map["a" := x]
            && t.cache == map["a" := x, "c" := x]
            && u.cache == map["a" := x, "b" := x, "c" := x]
  {
    var s := Store(map["a" := x], Some(map["a" := x]), NoTmp, map["a" := x], true);
    UnrollAfter(s, Upsert("b", x));
    var c := Crashed(After(s, Upsert("b", x), 1));
    UnrollOpening(c, false);
    var r := Open(c, false);
    assert r.engine == map["a" := x, "b" := x];
    UnrollAfter(r, Upsert("c", x));
    var t := After(r, Upsert("c", x), STEPS);
    assert t.engine == map["a" := x, "b" := x, "c" := x];
    assert "a" in t.engine;
    UnrollOpening(Crashed(t), true);
  }

  // ---------- the delete that the engine refuses ----------

  /** The store stays in sync exactly when there was nothing to delete. */
  lemma SwallowedDeleteIff(s: Store, id: string)
    requires Synced(s)
    ensures Synced(After(s, RefusedRemove(id), STEPS)) <==> id !in s.engine
  {
    UnrollAfter(s, RefusedRemove(id));
  }

  /** Engines without `upsert` get a delete followed by an insert.  A crash
      between the two recovers the state before or after exactly when the
      document was new, or was the only one, or the scan fails. */
  lemma FallbackUpsertIff(s: Store, id: string, doc: Doc, scanOk: bool)
    requires Synced(s)
    ensures var c := Crashed(s.(engine := s.engine - {id}));
            var r := Open(c, scanOk);
            (r.cache == s.cache || r.cache == s.cache[id := doc]) <==> id !in s.cache || s.cache.Keys == {id} || !scanOk
  {
    var c := Crashed(s.(engine := s.engine - {id}));
    UnrollOpening(c, scanOk);
    if id in s.cache && s.cache.Keys != {id} {
      var other :| other in s.cache && other != id;
      assert other in c.engine && id !in c.engine;
    } else if id !in s.cache {
      assert c.engine == s.cache;
    } else {
      assert c.engine.Keys == {};
      assert c.engine == map[];
    }
  }

  // ---------- whole runs with crashes ----------

  /** A try of open, cut by a crash after so many steps. */
  datatype Try = Try(n: nat, scanOk: bool)

  /** A change that completes, or one cut by a crash after n steps; then `open`
      is tried, each failed try itself cut by a crash, until it goes through. */
  datatype Episode = Done(ch: Change) | Cut(ch: Change, n: nat, tries: seq<Try>, scanOk: bool)

  /** Every failed try stops before the last step of open. */
  predicate Short(tries: seq<Try>) {
    forall i | 0 <= i < |tries| :: tries[i].n < OPEN_STEPS
  }

  predicate Legal(ep: Episode) {
    ep.Cut? ==> ep.n <= STEPS && Short(ep.tries)
  }

  /** Failed tries of open. */
  function Tried(s: Store, tries: seq<Try>): Store
    requires Short(tries)
  {
    if tries == [] then s
    else
      var last := tries[|tries| - 1];
      Crashed(Opening(Tried(s, tries[..|tries| - 1]), last.scanOk, last.n))
  }

  function Play(s: Store, ep: Episode): Store
    requires Legal(ep)
  {
    match ep
    case Done(ch) => After(s, ch, STEPS)
    case Cut(ch, n, tries, scanOk) => Open(Tried(Crashed(After(s, ch, n)), tries), scanOk)
  }

  function PlayAll(s: Store, eps: seq<Episode>): Store
    requires forall ep <- eps :: Legal(ep)
  {
    if eps == [] then s else Play(PlayAll(s, eps[..|eps| - 1]), eps[|eps| - 1])
  }

  /** The history the run should amount to: every change counts, but one cut
      before its engine write. */
  function Kept(m: Docs, eps: seq<Episode>): Docs {
    if eps == [] then m
    else KeptOne(Kept(m, eps[..|eps| - 1]), eps[|eps| - 1])
  }

  function KeptOne(m: Docs, ep: Episode): Docs {
    if ep.Cut? && ep.n == 0 then m else Changed(m, ep.ch)
  }

  /** The document that no change removes: the default database. */
  ghost predicate Spares(ep: Episode, id: string) {
    !ep.ch.Upsert? ==> ep.ch.id != id
  }

  /** Nothing goes wrong unseen: the engine refuses no delete of what is there,
      and no scan fails after a crash between a change's engine write and its
      publication, unless the change changes nothing. */
  ghost predicate Sound(m: Docs, ep: Episode) {
    && (ep.ch.RefusedRemove? && !(ep.Cut? && ep.n == 0) ==> ep.ch.id !in m)
    && (ep.Cut? && !ep.scanOk && 0 < ep.n < STEPS ==> Changed(m, ep.ch) == m)
  }

  lemma {:induction false} TriedKeepsEngine(s: Store, tries: seq<Try>)
    requires Short(tries) && !s.isOpen && s.cache == map[]
    ensures var t := Tried(s, tries);
            t.engine == s.engine && t.snapshot == s.snapshot && !t.isOpen && t.cache == map[]
  {
    if tries != [] {
      var p, last := Tried(s, tries[..|tries| - 1]), tries[|tries| - 1];
      TriedKeepsEngine(s, tries[..|tries| - 1]);
      UnrollOpening(p, last.scanOk);
    }
  }

  /** One episode from a state in sync ends in sync, with the change in or out as
      it should be, exactly when it is sound. */
  lemma EpisodeExactIff(s: Store, ep: Episode, id: string)
    requires Synced(s) && Legal(ep) && id in s.cache && Spares(ep, id)
    ensures var r := Play(s, ep);
            Synced(r) && r.cache == KeptOne(s.cache, ep) <==> Sound(s.cache, ep)
    ensures id in KeptOne(s.cache, ep)
  {
    UnrollAfter(s, ep.ch);
    if ep.Cut? {
      var c := Crashed(After(s, ep.ch, ep.n));
      assert id in c.engine;
      TriedKeepsEngine(c, ep.tries);
      UnrollOpening(Tried(c, ep.tries), ep.scanOk);
    }
  }

  /** The run so far is exact: in sync, and the result of its history. */
  ghost predicate ExactAt(s: Store, eps: seq<Episode>)
    requires forall ep <- eps :: Legal(ep)
  {
    Synced(PlayAll(s, eps)) && PlayAll(s, eps).cache == Kept(s.cache, eps)
  }

  ghost predicate SoundRun(m: Docs, eps: seq<Episode>) {
    forall i | 0 <= i < |eps| :: Sound(Kept(m, eps[..i]), eps[i])
  }

  lemma {:induction false} SparedStays(m: Docs, eps: seq<Episode>, id: string)
    requires id in m && forall ep <- eps :: Spares(ep, id)
    ensures id in Kept(m, eps)
  {
    if eps != [] {
      SparedStays(m, eps[..|eps| - 1], id);
      assert Spares(eps[|eps| - 1], id);
    }
  }

  lemma NextExactIff(s: Store, eps: seq<Episode>, id: string, i: nat)
    requires Synced(s) && id in s.cache && i < |eps|
    requires forall ep <- eps :: Legal(ep) && Spares(ep, id)
    requires ExactAt(s, eps[..i])
    ensures ExactAt(s, eps[..i + 1]) <==> Sound(Kept(s.cache, eps[..i]), eps[i])
  {
    assert eps[..i + 1][..i] == eps[..i];
    SparedStays(s.cache, eps[..i], id);
    EpisodeExactIff(PlayAll(s, eps[..i]), eps[i], id);
  }

  /** Over any number of changes and crashes, including crashes during recovery,
      with a document that is never removed: as long as every episode is sound,
      the catalog is the result of the changes in order, leaving out only those
      cut before their engine write, and engine, cache and snapshot agree. */
  lemma {:induction false} HistoryIsExact(s: Store, eps: seq<Episode>, id: string)
    requires Synced(s) && id in s.cache && SoundRun(s.cache, eps)
    requires forall ep <- eps :: Legal(ep) && Spares(ep, id)
    ensures ExactAt(s, eps) && id in PlayAll(s, eps).cache
  {
    SparedStays(s.cache, eps, id);
    if eps != [] {
      var l := |eps| - 1;
      SoundBefore(s.cache, eps, l);
      HistoryIsExact(s, eps[..l], id);
      NextExactIff(s, eps, id, l);
      assert eps[..l + 1] == eps;
    }
  }

  lemma SoundBefore(m: Docs, eps: seq<Episode>, l: nat)
    requires SoundRun(m, eps) && l <= |eps|
    ensures SoundRun(m, eps[..l])
  {
    forall i | 0 <= i < l ensures Sound(Kept(m, eps[..l][..i]), eps[..l][i]) {
      assert eps[..l][..i] == eps[..i];
    }
  }

  /** And only as long: the run is exact at every moment exactly when every
      episode is sound. */
  lemma HistoryIsExactIff(s: Store, eps: seq<Episode>, id: string)
    requires Synced(s) && id in s.cache
    requires forall ep <- eps :: Legal(ep) && Spares(ep, id)
    ensures (forall i | 0 <= i <= |eps| :: ExactAt(s, eps[..i])) <==> SoundRun(s.cache, eps)
  {
    hide ExactAt, Kept, Sound;
    if forall i | 0 <= i <= |eps| :: ExactAt(s, eps[..i]) {
      forall i | 0 <= i < |eps| ensures Sound(Kept(s.cache, eps[..i]), eps[i]) {
        NextExactIff(s, eps, id, i);
      }
    }
    if SoundRun(s.cache, eps) {
      forall i | 0 <= i <= |eps| ensures ExactAt(s, eps[..i]) {
        SoundBefore(s.cache, eps, i);
        HistoryIsExact(s, eps[..i], id);
      }
    }
  }

  // ---------- what a Reader sees meanwhile ----------

  /** The snapshots on disk after each step of an episode, up to and including
      its last step. */
  function Views(s: Store, ep: Episode): seq<Option<Docs>>
    requires Legal(ep)
  {
    match ep
    case Done(ch) => ChangeViews(s, ch, STEPS)
    case Cut(ch, n, tries, scanOk) =>
      var c := Crashed(After(s, ch, n));
      ChangeViews(s, ch, n) + (TryViews(c, tries) + OpenViews(Tried(c, tries), scanOk, OPEN_STEPS))
  }

  function TryViews(c: Store, tries: seq<Try>): seq<Option<Docs>>
    requires Short(tries)
  {
    if tries == [] then []
    else
      var p, last := Tried(c, tries[..|tries| - 1]), tries[|tries| - 1];
      TryViews(c, tries[..|tries| - 1]) + OpenViews(p, last.scanOk, last.n)
  }

  ghost predicate AllShow(views: seq<Option<Docs>>, m: Docs) {
    forall j | 0 <= j < |views| :: views[j] == Some(m)
  }

  /** First `before`, then `after`, never back. */
  ghost predicate SwitchesOnce(views: seq<Option<Docs>>, before: Docs, after: Docs) {
    exists i :: SwitchesAt(views, before, after, i)
  }

  ghost predicate SwitchesAt(views: seq<Option<Docs>>, before: Docs, after: Docs, i: int) {
    0 <= i <= |views| && AllShow(views[..i], before) && AllShow(views[i..], after)
  }

  lemma OldThenSwitch(a: seq<Option<Docs>>, b: seq<Option<Docs>>, before: Docs, after: Docs)
    requires AllShow(a, before) && SwitchesOnce(b, before, after)
    ensures SwitchesOnce(a + b, before, after)
  {
    var i :| SwitchesAt(b, before, after, i);
    assert (a + b)[..|a| + i] == a + b[..i] && (a + b)[|a| + i..] == b[i..];
    assert SwitchesAt(a + b, before, after, |a| + i);
  }

  lemma SwitchThenNew(a: seq<Option<Docs>>, b: seq<Option<Docs>>, before: Docs, after: Docs)
    requires SwitchesOnce(a, before, after) && AllShow(b, after)
    ensures SwitchesOnce(a + b, before, after)
  {
    var i :| SwitchesAt(a, before, after, i);
    assert (a + b)[..i] == a[..i] && (a + b)[i..] == a[i..] + b;
    assert SwitchesAt(a + b, before, after, i);
  }

  /** The snapshots after the first n steps of a change. */
  function ChangeViews(s: Store, ch: Change, n: nat): seq<Option<Docs>>
    requires n <= STEPS
  {
    seq(n + 1, i requires 0 <= i <= n => After(s, ch, i).snapshot)
  }

  lemma ChangeViewsSwitch(s: Store, ch: Change, n: nat)
    requires Synced(s) && n <= STEPS
    ensures n < STEPS ==> AllShow(ChangeViews(s, ch, n), s.cache)
    ensures n == STEPS ==> SwitchesOnce(ChangeViews(s, ch, n), s.cache, Changed(s.cache, ch))
  {
    UnrollAfter(s, ch);
    if n == STEPS {
      assert SwitchesAt(ChangeViews(s, ch, n), s.cache, Changed(s.cache, ch), STEPS);
    }
  }

  function OpenViews(s: Store, scanOk: bool, m: nat): seq<Option<Docs>>
    requires m <= OPEN_STEPS
  {
    seq(m + 1, i requires 0 <= i <= m => Opening(s, scanOk, i).snapshot)
  }

  lemma OpenViewsSwitch(s: Store, scanOk: bool, m: nat, before: Docs)
    requires m <= OPEN_STEPS && s.engine != map[] && s.snapshot == Some(before)
    ensures m < OPEN_STEPS || !scanOk ==> AllShow(OpenViews(s, scanOk, m), before)
    ensures m == OPEN_STEPS && scanOk ==> SwitchesOnce(OpenViews(s, scanOk, m), before, s.engine)
  {
    UnrollOpening(s, scanOk);
    if m == OPEN_STEPS && scanOk {
      assert SwitchesAt(OpenViews(s, scanOk, m), before, s.engine, OPEN_STEPS);
    }
  }

  lemma {:induction false} TryViewsAreOld(c: Store, tries: seq<Try>, before: Docs)
    requires Short(tries)
    requires c.engine != map[] && c.snapshot == Some(before) && !c.isOpen && c.cache == map[]
    ensures AllShow(TryViews(c, tries), before)
  {
    if tries != [] {
      var l := |tries| - 1;
      TryViewsAreOld(c, tries[..l], before);
      TriedKeepsEngine(c, tries[..l]);
      OpenViewsSwitch(Tried(c, tries[..l]), tries[l].scanOk, tries[l].n, before);
    }
  }

  /** Reading the snapshot at any moment of a sound episode, crash and recovery
      included, gives a whole catalog: the one before it until some moment, the
      one after it from then on. */
  lemma ReaderViewsAdvance(s: Store, ep: Episode, id: string)
    requires Synced(s) && Legal(ep) && id in s.cache && Spares(ep, id) && Sound(s.cache, ep)
    ensures SwitchesOnce(Views(s, ep), s.cache, Play(s, ep).cache)
  {
    EpisodeExactIff(s, ep, id);
    match ep
    case Done(ch) => ChangeViewsSwitch(s, ch, STEPS);
    case Cut(_, _, _, _) => CutViewsAdvance(s, ep, id);
  }

  lemma CutViewsAdvance(s: Store, ep: Episode, id: string)
    requires Synced(s) && Legal(ep) && ep.Cut? && id in s.cache && Spares(ep, id) && Sound(s.cache, ep)
    ensures SwitchesOnce(Views(s, ep), s.cache, KeptOne(s.cache, ep))
  {
    var c := Crashed(After(s, ep.ch, ep.n));
    var after := KeptOne(s.cache, ep);
    UnrollAfter(s, ep.ch);
    assert id in c.engine;
    assert c.engine == after;
    ChangeViewsSwitch(s, ep.ch, ep.n);
    TriedKeepsEngine(c, ep.tries);
    var stand := if ep.n == STEPS then after else s.cache;
    var t := Tried(c, ep.tries);
    TryViewsAreOld(c, ep.tries, stand);
    OpenViewsSwitch(t, ep.scanOk, OPEN_STEPS, stand);
    var opening := OpenViews(t, ep.scanOk, OPEN_STEPS);
    if !ep.scanOk {
      NeverSwitches(opening, after);
    }
    OldThenSwitch(TryViews(c, ep.tries), opening, stand, after);
    var rest := TryViews(c, ep.tries) + opening;
    if ep.n == STEPS {
      OnlyNew(rest, after);
      SwitchThenNew(ChangeViews(s, ep.ch, ep.n), rest, s.cache, after);
    } else {
      OldThenSwitch(ChangeViews(s, ep.ch, ep.n), rest, s.cache, after);
    }
  }

  lemma NeverSwitches(views: seq<Option<Docs>>, m: Docs)
    requires AllShow(views, m)
    ensures SwitchesOnce(views, m, m)
  {
    assert SwitchesAt(views, m, m, 0);
  }

  lemma OnlyNew(views: seq<Option<Docs>>, m: Docs)
    requires SwitchesOnce(views, m, m)
    ensures AllShow(views, m)
  {
  }

  /** The snapshots on disk at every moment of a run. */
  function RunViews(s: Store, eps: seq<Episode>): seq<Option<Docs>>
    requires forall ep <- eps :: Legal(ep)
  {
    if eps == [] then [s.snapshot]
    else
      var l := |eps| - 1;
      RunViews(s, eps[..l]) + Views(PlayAll(s, eps[..l]), eps[l])
  }

  /** The view at each moment is the catalog after the first at[j] episodes. */
  ghost predicate Walks(m: Docs, eps: seq<Episode>, views: seq<Option<Docs>>, at: seq<nat>) {
    && |at| == |views|
    && (forall j | 0 <= j < |at| :: at[j] <= |eps| && views[j] == Some(Kept(m, eps[..at[j]])))
    && (forall j, k | 0 <= j <= k < |at| :: at[j] <= at[k])
  }

  /** By the last moment of the first n episodes it shows all n. */
  ghost predicate KeepsUp(s: Store, eps: seq<Episode>, at: seq<nat>)
    requires forall ep <- eps :: Legal(ep)
  {
    forall n | 0 <= n <= |eps| ::
      0 < |RunViews(s, eps[..n])| <= |at| && at[|RunViews(s, eps[..n])| - 1] == n
  }

  /** The states a Reader observes over a whole sound run, with crashes anywhere
      and during recovery, are a non-decreasing walk through the Writer's history,
      and the walk is never behind an episode that is over. */
  lemma {:induction false} ReaderWalksHistory(s: Store, eps: seq<Episode>, id: string) returns (at: seq<nat>)
    requires Synced(s) && id in s.cache
    requires SoundRun(s.cache, eps) && forall ep <- eps :: Legal(ep) && Spares(ep, id)
    ensures Walks(s.cache, eps, RunViews(s, eps), at) && KeepsUp(s, eps, at)
  {
    if eps == [] {
      at := [0];
      assert eps[..0] == [];
    } else {
      var l := |eps| - 1;
      var p := PlayAll(s, eps[..l]);
      SoundBefore(s.cache, eps, l);
      var before := ReaderWalksHistory(s, eps[..l], id);
      HistoryIsExact(s, eps[..l], id);
      HistoryIsExact(s, eps, id);
      ReaderViewsAdvance(p, eps[l], id);
      LastView(p, eps[l]);
      at := WalkOn(s.cache, eps, RunViews(s, eps[..l]), before, Views(p, eps[l]));
      KeepsUpOn(s, eps, before, at);
    }
  }

  lemma LastView(s: Store, ep: Episode)
    requires Legal(ep)
    ensures var views := Views(s, ep); views != [] && views[|views| - 1] == Play(s, ep).snapshot
  {
  }

  /** One more episode goes on from the walk so far. */
  lemma WalkOn(m: Docs, eps: seq<Episode>, views: seq<Option<Docs>>, before: seq<nat>, more: seq<Option<Docs>>) returns (at: seq<nat>)
    requires eps != [] && more != []
    requires Walks(m, eps[..|eps| - 1], views, before)
    requires SwitchesOnce(more, Kept(m, eps[..|eps| - 1]), Kept(m, eps))
    requires more[|more| - 1] == Some(Kept(m, eps))
    ensures Walks(m, eps, views + more, at) && before <= at && at[|at| - 1] == |eps|
  {
    hide Kept;
    var l := |eps| - 1;
    var i :| SwitchesAt(more, Kept(m, eps[..l]), Kept(m, eps), i);
    var turn := if i < |more| then i else |more| - 1;
    var rest := seq(|more|, j requires 0 <= j < |more| => if j < turn then l else l + 1);
    at := before + rest;
    forall j | 0 <= j < |at| ensures at[j] <= |eps| && (views + more)[j] == Some(Kept(m, eps[..at[j]])) {
      if j < |views| {
        assert eps[..l][..before[j]] == eps[..before[j]];
      } else {
        var k := j - |views|;
        assert eps[..l + 1] == eps;
        assert k < turn ==> more[k] == more[..i][k];
        assert turn <= k && i < |more| ==> more[k] == more[i..][k - i];
      }
    }
  }

  lemma KeepsUpOn(s: Store, eps: seq<Episode>, before: seq<nat>, at: seq<nat>)
    requires eps != [] && forall ep <- eps :: Legal(ep)
    requires KeepsUp(s, eps[..|eps| - 1], before) && before <= at
    requires |at| == |RunViews(s, eps)| > 0 && at[|at| - 1] == |eps|
    ensures KeepsUp(s, eps, at)
  {
    hide RunViews, Legal;
    var l := |eps| - 1;
    assert eps[..|eps|] == eps;
    forall n | 0 <= n <= l
      ensures 0 < |RunViews(s, eps[..n])| <= |at| && at[|RunViews(s, eps[..n])| - 1] == n
    {
      assert eps[..l][..n] == eps[..n];
    }
  }
}
