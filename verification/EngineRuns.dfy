/** Whole runs of the engine, crashes and failed transactions included, seen as
    runs of the record store's transactions. */
module EngineRuns {
  import opened ByteOrder
  import opened Records
  import opened Publication
  import opened CrashSafety
  import opened Expiration
  import V = Versioning
  import H = History

  ghost function Committed(w: World, e: Event): seq<Txn> {
    V.Commits(Taken(w, e))
  }

  ghost function Trace(w: World, events: seq<Event>): seq<Txn>
    decreases |events|
  {
    if events == [] then [] else Committed(w, events[0]) + Trace(After(w, events[0]), events[1..])
  }

  lemma {:induction false} RunFollowsTrace(w: World, events: seq<Event>)
    ensures Run(w, events).table == H.ApplyAll(w.table, Trace(w, events))
    decreases |events|
  {
    if events != [] {
      V.TableFollowsCommits(w, Taken(w, events[0]));
      RunFollowsTrace(After(w, events[0]), events[1..]);
      V.ApplyConcat(w.table, Committed(w, events[0]), Trace(After(w, events[0]), events[1..]));
    }
  }

  // -------------------------------------------------- every trace is possible

  lemma {:induction false} PossibleConcat(t: Table, a: seq<Txn>, b: seq<Txn>)
    requires Possible(t, a) && Possible(H.ApplyAll(t, a), b)
    ensures Possible(t, a + b)
    decreases |b|
  {
    if b == [] {
      assert a + b == a;
    } else {
      var n := |b| - 1;
      PossibleConcat(t, a, b[..n]);
      V.ApplyConcat(t, a, b[..n]);
      assert (a + b)[..|a + b| - 1] == a + b[..n];
    }
  }

  lemma PossibleOne(t: Table, txns: seq<Txn>)
    requires |txns| == 1 && PossibleTxn(t, txns[0])
    ensures Possible(t, txns)
  {
    assert txns[..0] == [];
  }

  lemma MainStorable(w: World, r: Request, txn: Txn)
    requires Safe(w) && Fresh(w, r) && V.MainTxn(w, r, txn)
    ensures !txn.PutMetaRaw?
    ensures txn.PutMeta? ==> Storable(txn.info) && txn.info.key == V.RequestKey(r)
  {
    if r.ExpireCurrent? && txn.PutMeta? {
      assert RecordOk(w.table, Pointer(r.key));
    }
  }

  /** The transactions of a request up to any crash point, spelled out. */
  lemma CommittedCases(w: World, e: Event)
    requires Safe(w) && Fresh(w, e.request)
    ensures
      var txns, r := Committed(w, e), e.request;
      || txns == []
      || (|txns| == 1 && V.MainTxn(w, r, txns[0]) &&
          (txns[0].PutMeta? && txns[0].info.versionId != "" ==> !NeedsPromotion(w.table, V.RequestKey(r))))
      || (NeedsPromotion(w.table, V.RequestKey(r)) && !r.SetVersioning? &&
          1 <= |txns| <= 2 && txns[0] == PutMetaRaw(Promoted(w, V.RequestKey(r), V.CopyId(r))) &&
          (|txns| == 2 ==> V.MainTxn(w, r, txns[1])))
  {
    var r, steps := e.request, Plan(w, e.request);
    var n := if e.crash.Some? && e.crash.value <= |steps| then e.crash.value else |steps|;
    assert steps[..|steps|] == steps;
    var all := V.Commits(steps);
    V.PlanCommits(w, r);
    var p: nat :| p <= |all| && V.ShapeAt(w, r, all, p);
    var m := V.CommitsPrefix(steps, n);
    assert Committed(w, e) == all[..m];
    SetVersioningCommitsNothing(w, r);
    if p == 1 {
      assert all[0] == all[..1][0];
    }
  }

  lemma SetVersioningCommitsNothing(w: World, r: Request)
    ensures r.SetVersioning? ==> V.Commits(Plan(w, r)) == []
  {
    if r.SetVersioning? {
      var steps := Plan(w, r);
      if steps != [] {
        V.OneCommit(steps[0]);
      }
    }
  }

  lemma CommittedPossible(w: World, e: Event)
    requires Safe(w) && Fresh(w, e.request)
    ensures Possible(w.table, Committed(w, e))
  {
    var txns, r := Committed(w, e), e.request;
    CommittedCases(w, e);
    if txns != [] {
      if V.MainTxn(w, r, txns[0]) {
        MainStorable(w, r, txns[0]);
      }
      if NeedsPromotion(w.table, V.RequestKey(r)) && !r.SetVersioning? {
        V.PromotionFacts(w, r);
      }
      if |txns| == 1 {
        PossibleOne(w.table, txns);
      } else {
        MainStorable(w, r, txns[1]);
        PossibleOne(w.table, [txns[0]]);
        V.ApplyOne(w.table, [txns[0]]);
        PossibleOne(Apply(w.table, txns[0]), [txns[1]]);
        PossibleConcat(w.table, [txns[0]], [txns[1]]);
        assert txns == [txns[0]] + [txns[1]];
      }
    }
  }

  lemma {:induction false} TracePossible(w: World, events: seq<Event>)
    requires Safe(w) && RunOk(w, events)
    ensures Possible(w.table, Trace(w, events))
    decreases |events|
  {
    if events != [] {
      var w1 := After(w, events[0]);
      CommittedPossible(w, events[0]);
      AfterSafe(w, events[0]);
      TracePossible(w1, events[1..]);
      V.TableFollowsCommits(w, Taken(w, events[0]));
      PossibleConcat(w.table, Committed(w, events[0]), Trace(w1, events[1..]));
    }
  }

  /** Sweeps within whole runs: a swept version was last displaced more than the
      cutoff before the sweep began. */
  lemma SweepsInRuns(w: World, events: seq<Event>, r: Request, n: nat, v: Bytes)
    requires Safe(w) && RunOk(w, events)
    requires
      var w1 := Run(w, events);
      && Fresh(w1, r) && r.ExpireNoncurrent? && n <= |Plan(w1, r)|
      && Version(r.key, v) in w1.table && Version(r.key, v) !in ExecAll(w1, Plan(w1, r)[..n]).table
    ensures !Run(w, events).table[Version(r.key, v)].isLatest
    ensures
      var displaced := LastDisplacement(w.table, Trace(w, events), r.key, v);
      displaced.Some? ==> r.now - displaced.value > r.cutoff
  {
    RunSafe(w, events);
    RunFollowsTrace(w, events);
    TracePossible(w, events);
    SweepRemovesOnlyExpired(Run(w, events), r, n, v);
    SweptVersionsWereDisplacedLongAgo(w.table, Trace(w, events), Run(w, events), r, n, v);
  }

  // ------------------------------------------------ runs with increasing times

  function WriteTime(r: Request): Option<int> {
    match r
    case PutObject(_, _, _, time, _, _, _, _) => Some(time)
    case DeleteRequest(_, _, time, _, _, _) => Some(time)
    case ExpireCurrent(_, _, _, time, _, _, _) => Some(time)
    case _ => None
  }

  /** Each request that may write the key draws a later time than every one before
      that may. */
  predicate TimesIncrease(key: Bytes, clock: int, events: seq<Event>)
    decreases |events|
  {
    events == [] ||
    (var r := events[0].request;
     if WriteTime(r).None? || V.RequestKey(r) != key then TimesIncrease(key, clock, events[1..])
     else WriteTime(r).value > clock && TimesIncrease(key, WriteTime(r).value, events[1..]))
  }

  /** The key's clock after a request. */
  function Later(key: Bytes, clock: int, r: Request): int {
    if WriteTime(r).None? || V.RequestKey(r) != key then clock else WriteTime(r).value
  }

  lemma {:induction false} AdmissibleConcat(t: Table, key: Bytes, clock: int, a: seq<Txn>, b: seq<Txn>)
    requires H.AdmissibleRun(t, key, clock, a) && H.AdmissibleRun(H.ApplyAll(t, a), key, H.TickAll(key, clock, a), b)
    ensures H.AdmissibleRun(t, key, clock, a + b)
    decreases |a|
  {
    if a == [] {
      assert a + b == b;
    } else {
      assert (a + b)[1..] == a[1..] + b;
      AdmissibleConcat(Apply(t, a[0]), key, H.Tick(key, clock, a[0]), a[1..], b);
    }
  }

  /** A run may start with a later clock only if its writes are later still. */
  lemma {:induction false} AdmissibleEarlier(t: Table, key: Bytes, clock: int, later: int, txns: seq<Txn>)
    requires H.AdmissibleRun(t, key, later, txns) && clock <= later
    ensures H.AdmissibleRun(t, key, clock, txns)
    decreases |txns|
  {
    if txns != [] {
      AdmissibleEarlier(Apply(t, txns[0]), key, H.Tick(key, clock, txns[0]), H.Tick(key, later, txns[0]), txns[1..]);
    }
  }

  lemma MainAdmissible(w: World, t: Table, key: Bytes, clock: int, r: Request, txn: Txn)
    requires Safe(w) && Fresh(w, r) && V.MainTxn(w, r, txn)
    requires WriteTime(r).Some? && V.RequestKey(r) == key ==> WriteTime(r).value > clock
    ensures H.Admissible(t, key, clock, txn) && H.Tick(key, clock, txn) <= Later(key, clock, r)
  {
    MainStorable(w, r, txn);
  }

  lemma TickOne(key: Bytes, clock: int, txns: seq<Txn>)
    requires |txns| == 1
    ensures H.TickAll(key, clock, txns) == H.Tick(key, clock, txns[0])
  {
    assert txns[1..] == [];
  }

  lemma CommittedAdmissible(w: World, key: Bytes, clock: int, e: Event)
    requires Safe(w) && Fresh(w, e.request)
    requires WriteTime(e.request).Some? && V.RequestKey(e.request) == key ==> WriteTime(e.request).value > clock
    ensures H.AdmissibleRun(w.table, key, clock, Committed(w, e))
    ensures H.TickAll(key, clock, Committed(w, e)) <= Later(key, clock, e.request)
  {
    var txns, r := Committed(w, e), e.request;
    CommittedCases(w, e);
    if txns != [] {
      if NeedsPromotion(w.table, V.RequestKey(r)) && !r.SetVersioning? {
        V.PromotionFacts(w, r);
      }
      if |txns| == 1 {
        assert txns[1..] == [];
        if !txns[0].PutMetaRaw? {
          MainAdmissible(w, w.table, key, clock, r, txns[0]);
        }
      } else {
        MainAdmissible(w, Apply(w.table, txns[0]), key, clock, r, txns[1]);
        TickOne(key, clock, txns[1..]);
        assert txns[1..][1..] == [];
      }
    }
  }

  lemma {:induction false} TraceAdmissible(w: World, key: Bytes, clock: int, events: seq<Event>)
    requires Safe(w) && RunOk(w, events) && TimesIncrease(key, clock, events)
    ensures H.AdmissibleRun(w.table, key, clock, Trace(w, events))
    decreases |events|
  {
    if events != [] {
      var w1, e := After(w, events[0]), events[0];
      var next := Later(key, clock, e.request);
      CommittedAdmissible(w, key, clock, e);
      AfterSafe(w, e);
      TraceAdmissible(w1, key, next, events[1..]);
      V.TableFollowsCommits(w, Taken(w, e));
      AdmissibleEarlier(w1.table, key, H.TickAll(key, clock, Committed(w, e)), next, Trace(w1, events[1..]));
      AdmissibleConcat(w.table, key, clock, Committed(w, e), Trace(w1, events[1..]));
    }
  }

  /** Reads after any run of requests, crashes included: without a version ID, the
      most recently written version that survives; with one, that version of the
      history. The times of the writes of the key must increase. */
  lemma EngineFollowsHistory(w: World, h: H.Chronicle, clock: int, events: seq<Event>, key: Bytes, v: Bytes)
    requires Safe(w) && RunOk(w, events) && TimesIncrease(key, clock, events) && H.Tracks(w.table, key, h, clock)
    ensures Lookup(Run(w, events).table, key, v) == H.Recall(H.StepAll(h, key, Trace(w, events)), v)
  {
    RunFollowsTrace(w, events);
    TraceAdmissible(w, key, clock, events);
    H.ReadsFollowHistory(w.table, key, h, clock, Trace(w, events), v);
  }

  /** From scan to expiry, with any requests and crashes in between: if expiring a
      current version does anything, the version current then is the very write the
      scan saw, with its bytes and its age. */
  lemma ExpiryActsOnScannedWrite(w: World, clock: int, events: seq<Event>, r: Request, n: nat)
    requires Safe(w) && RunOk(w, events) && r.ExpireCurrent? && TimesIncrease(r.key, clock, events)
    requires
      var pointer := Pointer(r.key);
      pointer in w.table && w.table[pointer].versionId == r.versionId && w.table[pointer].modified == r.modified <= clock
    requires var w1 := Run(w, events); n <= |Plan(w1, r)| && ExecAll(w1, Plan(w1, r)[..n]) != w1
    ensures
      var t, u := w.table, Run(w, events).table;
      && Pointer(r.key) in u && SameWrite(u[Pointer(r.key)], t[Pointer(r.key)])
      && (u[Pointer(r.key)].isDeleteMarker ==> forall info :: info in KeyVersions(u, r.key) ==> info.versionId == r.versionId)
  {
    ExpiryChecks(Run(w, events), r, n);
    RunFollowsTrace(w, events);
    TraceAdmissible(w, r.key, clock, events);
    FoundAgain(w.table, r.key, clock, Trace(w, events));
  }
}
