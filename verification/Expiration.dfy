/** Lifecycle sweeps: what they collect, and what they may remove when they act on
    it later, while writes and deletes go on in between. */
module Expiration {
  import opened ByteOrder
  import opened Records
  import opened Publication
  import opened CrashSafety
  import V = Versioning
  import H = History

  // --------------------------------------------------------- recorded displacement

  ghost predicate Current(t: Table, key: Bytes, v: Bytes) {
    v != "" && IsCurrent(t, key, v)
  }

  /** The time of the last write that took the place of version `v` as the current
      one, in a run of transactions. */
  ghost function LastDisplacement(t: Table, txns: seq<Txn>, key: Bytes, v: Bytes): Option<int>
    decreases |txns|
  {
    if txns == [] then
      None
    else
      var n := |txns| - 1;
      var before := H.ApplyAll(t, txns[..n]);
      if Current(before, key, v) && !Current(Apply(before, txns[n]), key, v) && txns[n].PutMeta? then
        Some(txns[n].info.modified)
      else
        LastDisplacement(t, txns[..n], key, v)
  }

  /** Every transaction of a run is one the engine makes. */
  ghost predicate Possible(t: Table, txns: seq<Txn>)
    decreases |txns|
  {
    txns == [] ||
    (var n := |txns| - 1;
     var before := H.ApplyAll(t, txns[..n]);
     && Possible(t, txns[..n])
     && PossibleTxn(before, txns[n]))
  }

  ghost predicate PossibleTxn(t: Table, txn: Txn) {
    match txn
    case PutMeta(info) => Storable(info) && (info.versionId != "" ==> !NeedsPromotion(t, info.key))
    case PutMetaRaw(info) => Promotes(t, info)
    case DeleteMeta(_, _) => true
  }

  lemma ApplyLast(t: Table, txns: seq<Txn>)
    requires txns != []
    ensures H.ApplyAll(t, txns) == Apply(H.ApplyAll(t, txns[..|txns| - 1]), txns[|txns| - 1])
  {
    var n := |txns| - 1;
    V.ApplyConcat(t, txns[..n], [txns[n]]);
    V.ApplyOne(H.ApplyAll(t, txns[..n]), [txns[n]]);
    assert txns[..n] + [txns[n]] == txns;
  }

  /** One transaction: a noncurrent version was already noncurrent and unchanged,
      or this write displaced it and says when. */
  lemma StepDisplaces(t: Table, txn: Txn, key: Bytes, v: Bytes)
    requires Consistent(t) && Version(key, v) in Apply(t, txn) && !Apply(t, txn)[Version(key, v)].isLatest
    requires PossibleTxn(t, txn)
    ensures Version(key, v) in t && v != ""
    ensures if Current(t, key, v) then
              txn.PutMeta? && !Current(Apply(t, txn), key, v) &&
              Apply(t, txn)[Version(key, v)].noncurrentSince == Some(txn.info.modified)
            else
              Apply(t, txn)[Version(key, v)] == t[Version(key, v)]
  {
    var rk := Version(key, v);
    assert rk in t ==> RecordOk(t, rk);
    assert Pointer(key) in t ==> RecordOk(t, Pointer(key));
    match txn
    case PutMeta(info) =>
      PutGet(t, info, rk);
      PutGet(t, info, Pointer(key));
    case PutMetaRaw(info) =>
    case DeleteMeta(k, w) =>
      if w != "" {
        DeleteVersionGet(t, k, w, rk);
      }
  }

  lemma {:induction false} PossibleConsistent(t: Table, txns: seq<Txn>)
    requires Consistent(t) && Possible(t, txns)
    ensures Consistent(H.ApplyAll(t, txns))
    decreases |txns|
  {
    if txns != [] {
      var n := |txns| - 1;
      var before := H.ApplyAll(t, txns[..n]);
      PossibleConsistent(t, txns[..n]);
      ApplyLast(t, txns);
      match txns[n]
      case PutMeta(info) => PutConsistent(before, info);
      case PutMetaRaw(info) => PromotionConsistent(before, info);
      case DeleteMeta(k, w) =>
        if w == "" {
          DeleteKeyConsistent(before, k);
        } else {
          DeleteVersionConsistent(before, k, w);
        }
    }
  }

  /** A noncurrent version carries the time of its last displacement, also when it
      has been current again in between. */
  lemma {:induction false} DisplacementIsRecorded(t: Table, txns: seq<Txn>, key: Bytes, v: Bytes)
    requires Consistent(t) && Possible(t, txns)
    requires Version(key, v) in H.ApplyAll(t, txns) && !H.ApplyAll(t, txns)[Version(key, v)].isLatest
    ensures
      var since := H.ApplyAll(t, txns)[Version(key, v)].noncurrentSince;
      match LastDisplacement(t, txns, key, v)
      case Some(time) => since == Some(time)
      case None => Version(key, v) in t && since == t[Version(key, v)].noncurrentSince
    decreases |txns|
  {
    if txns != [] {
      var n := |txns| - 1;
      var before := H.ApplyAll(t, txns[..n]);
      PossibleConsistent(t, txns[..n]);
      ApplyLast(t, txns);
      StepDisplaces(before, txns[n], key, v);
      assert RecordOk(before, Version(key, v));
      if !Current(before, key, v) {
        DisplacementIsRecorded(t, txns[..n], key, v);
      }
    }
  }

  // ----------------------------------------------------------------- the sweeps

  /** What a noncurrent sweep can have done to the records of `w` by any crash
      point: nothing, or it deleted exactly the version it was asked to expire. */
  lemma SweepTable(w: World, r: Request, n: nat)
    requires Safe(w) && Fresh(w, r) && r.ExpireNoncurrent? && n <= |Plan(w, r)|
    ensures
      var u := ExecAll(w, Plan(w, r)[..n]).table;
      || u == w.table
      || (ExpiresNoncurrent(w.table, r.key, r.versionId, r.now, r.cutoff) && u == DeleteVersion(w.table, r.key, r.versionId) &&
          Version(r.key, r.versionId) in w.table && !w.table[Version(r.key, r.versionId)].isLatest)
  {
    var steps, t := Plan(w, r), w.table;
    assert steps[..|steps|] == steps;
    if ExpiresNoncurrent(t, r.key, r.versionId, r.now, r.cutoff) {
      assert Pointer(r.key) in t ==> RecordOk(t, Pointer(r.key));
      assert Version(r.key, r.versionId) in t && RecordOk(t, Version(r.key, r.versionId));
      assert !NeedsPromotion(t, r.key);
      var txns := V.Commits(steps);
      V.PlanCommits(w, r);
      var p: nat :| p <= |txns| && V.ShapeAt(w, r, txns, p);
      var m := V.CommitsPrefix(steps, n);
      V.TableFollowsCommits(w, steps[..n]);
      if m == 1 {
        V.ApplyOne(t, txns[..m]);
      }
    } else {
      assert steps == [];
    }
  }

  /** A sweep that removes a version finds it noncurrent, and, if its displacement
      was recorded, displaced longer ago than the cutoff when the sweep began. The
      key's current version and every other version stay as they were. */
  lemma SweepRemovesOnlyExpired(w: World, r: Request, n: nat, v: Bytes)
    requires Safe(w) && Fresh(w, r) && r.ExpireNoncurrent? && n <= |Plan(w, r)|
    requires Version(r.key, v) in w.table && Version(r.key, v) !in ExecAll(w, Plan(w, r)[..n]).table
    ensures
      var t, u := w.table, ExecAll(w, Plan(w, r)[..n]).table;
      var info := t[Version(r.key, v)];
      && v == r.versionId && !info.isLatest
      && (info.noncurrentSince.Some? ==> r.now - info.noncurrentSince.value > r.cutoff)
      && Get(u, Pointer(r.key)) == Get(t, Pointer(r.key))
      && forall rk :: rk != Version(r.key, v) ==> Get(u, rk) == Get(t, rk)
  {
    SweepTable(w, r, n);
    var t := w.table;
    assert RecordOk(t, Version(r.key, v));
    forall rk
      ensures Get(DeleteVersion(t, r.key, r.versionId), rk) == DeleteVersionAt(t, r.key, r.versionId, rk)
    {
      DeleteVersionGet(t, r.key, r.versionId, rk);
    }
    assert Get(DeleteVersion(t, r.key, r.versionId), Version(r.key, v)) == DeleteVersionAt(t, r.key, r.versionId, Version(r.key, v));
    assert Version(r.key, r.versionId) in t ==> RecordOk(t, Version(r.key, r.versionId));
  }

  /** Over a run: a swept version was last displaced more than the cutoff before
      the sweep began, counting from its most recent displacement. */
  lemma SweptVersionsWereDisplacedLongAgo(t: Table, txns: seq<Txn>, w: World, r: Request, n: nat, v: Bytes)
    requires Consistent(t) && Possible(t, txns) && w.table == H.ApplyAll(t, txns)
    requires Safe(w) && Fresh(w, r) && r.ExpireNoncurrent? && n <= |Plan(w, r)|
    requires Version(r.key, v) in w.table && Version(r.key, v) !in ExecAll(w, Plan(w, r)[..n]).table
    ensures LastDisplacement(t, txns, r.key, v).Some? ==> r.now - LastDisplacement(t, txns, r.key, v).value > r.cutoff
  {
    SweepRemovesOnlyExpired(w, r, n, v);
    DisplacementIsRecorded(t, txns, r.key, v);
  }

  /** A version whose displacement was not recorded is kept unless some version of
      its key was modified after it, longer ago than the cutoff. */
  lemma UnrecordedNeedsSuccessor(t: Table, key: Bytes, v: Bytes, now: int, cutoff: int)
    requires Consistent(t) && Version(key, v) in t && t[Version(key, v)].noncurrentSince.None?
    requires ExpiresNoncurrent(t, key, v, now, cutoff)
    ensures exists info :: info in KeyVersions(t, key) && info.modified > t[Version(key, v)].modified && now - info.modified > cutoff
  {
    assert RecordOk(t, Version(key, v));
    FirstSuccessorIsLeast(KeyVersions(t, key), t[Version(key, v)].modified);
  }

  lemma {:induction false} FirstSuccessorIsLeast(versions: seq<ObjectInfo>, modified: int)
    ensures var s := FirstSuccessor(versions, modified);
            && (s.None? <==> forall info :: info in versions ==> info.modified <= modified)
            && (s.Some? ==> exists info :: info in versions && info.modified == s.value > modified)
            && (s.Some? ==> forall info :: info in versions && info.modified > modified ==> s.value <= info.modified)
    decreases |versions|
  {
    if versions != [] {
      var front, last := versions[..|versions| - 1], versions[|versions| - 1];
      FirstSuccessorIsLeast(front, modified);
      assert forall info :: info in versions <==> info in front || info == last;
    }
  }

  // ------------------------------------------------------------ current versions

  /** Records of one write: they differ at most in whether and since when another
      version has taken its place. */
  predicate SameWrite(a: ObjectInfo, b: ObjectInfo) {
    a == b.(isLatest := a.isLatest, noncurrentSince := a.noncurrentSince)
  }

  /** A record of the key is of a write after `clock`, or of a write `t` holds, or
      of the object `t` holds unversioned. */
  ghost predicate DescendsAt(t: Table, info: ObjectInfo, key: Bytes, clock: int) {
    || info.modified > clock
    || (exists was: RecordKey :: was in t && was.key == key && SameWrite(info, t[was]))
    || (info.versionId == "null" && Pointer(key) in t && t[Pointer(key)].versionId == "")
  }

  ghost predicate Descends(t: Table, u: Table, key: Bytes, clock: int) {
    forall rk: RecordKey :: rk in u && rk.key == key ==> DescendsAt(t, u[rk], key, clock)
  }

  lemma TxnDescends(t: Table, u: Table, key: Bytes, clock: int, now: int, txn: Txn)
    requires Consistent(t) && Consistent(u) && Descends(t, u, key, clock)
    requires clock <= now && H.Admissible(u, key, now, txn)
    ensures Descends(t, Apply(u, txn), key, clock)
  {
    var x := Apply(u, txn);
    forall rk: RecordKey | rk in x && rk.key == key
      ensures DescendsAt(t, x[rk], key, clock)
    {
      if H.TxnKey(txn) != key {
        H.OtherKeys(u, txn, key);
        assert Get(x, rk) == Get(u, rk);
      } else {
        var from := RecordBefore(u, key, txn, rk);
        if from.Some? {
          assert DescendsAt(t, u[from.value], key, clock);
          if was: RecordKey :| was in t && was.key == key && SameWrite(u[from.value], t[was]) {
            assert RecordOk(t, was);
          }
        }
      }
    }
  }

  /** Where the write of a record stood before the transaction that left it. */
  lemma RecordBefore(u: Table, key: Bytes, txn: Txn, rk: RecordKey) returns (from: Option<RecordKey>)
    requires Consistent(u) && H.TxnKey(txn) == key && rk.key == key && rk in Apply(u, txn)
    requires txn.PutMetaRaw? ==> Promotes(u, txn.info)
    ensures from.None? ==> txn.PutMeta? && Apply(u, txn)[rk].modified == txn.info.modified
    ensures from.Some? ==> from.value in u && from.value.key == key
    ensures from.Some? && !SameWrite(Apply(u, txn)[rk], u[from.value]) ==>
              && txn.PutMetaRaw? && from.value == Pointer(key) && u[from.value].versionId == ""
              && Apply(u, txn)[rk].versionId == "null" && Apply(u, txn)[rk].modified == u[from.value].modified
  {
    assert Pointer(key) in u ==> RecordOk(u, Pointer(key));
    match txn
    case PutMeta(info) =>
      PutGet(u, info, rk);
      if rk.Pointer? || (info.versionId != "" && rk.versionId == info.versionId) {
        from := None;
      } else if Pointer(key) in u && u[Pointer(key)].versionId == rk.versionId {
        from := Some(Pointer(key));
      } else {
        from := Some(rk);
      }
    case PutMetaRaw(info) =>
      from := Some(if rk in u && u[rk] == Apply(u, txn)[rk] then rk else Pointer(key));
    case DeleteMeta(_, v) =>
      if v == "" {
        from := Some(rk);
      } else {
        DeleteVersionGet(u, key, v, rk);
        from := Some(if IsCurrent(u, key, v) && rk.Pointer? then Version(key, Newest(u, key, v).value) else rk);
      }
  }

  lemma {:induction false} RunDescends(t: Table, u: Table, key: Bytes, clock: int, now: int, txns: seq<Txn>)
    requires Consistent(t) && Consistent(u) && Descends(t, u, key, clock)
    requires clock <= now && H.AdmissibleRun(u, key, now, txns)
    ensures Descends(t, H.ApplyAll(u, txns), key, clock) && Consistent(H.ApplyAll(u, txns))
    decreases |txns|
  {
    if txns != [] {
      TxnDescends(t, u, key, clock, now, txns[0]);
      H.TxnConsistent(u, txns[0]);
      RunDescends(t, Apply(u, txns[0]), key, clock, H.Tick(key, now, txns[0]), txns[1..]);
    }
  }

  /** A current version found again later under its ID and time is the very write
      that was there before, also where the ID is "" or "null" and used again; the
      times of the writes of the key in between must be later. */
  lemma FoundAgain(t: Table, key: Bytes, clock: int, txns: seq<Txn>)
    requires Consistent(t) && H.AdmissibleRun(t, key, clock, txns)
    requires Pointer(key) in t && t[Pointer(key)].modified <= clock
    requires
      var u := H.ApplyAll(t, txns);
      Pointer(key) in u && u[Pointer(key)].versionId == t[Pointer(key)].versionId
      && u[Pointer(key)].modified == t[Pointer(key)].modified
    ensures SameWrite(H.ApplyAll(t, txns)[Pointer(key)], t[Pointer(key)])
  {
    var u, v := H.ApplyAll(t, txns), t[Pointer(key)].versionId;
    forall rk: RecordKey | rk in t && rk.key == key
      ensures DescendsAt(t, t[rk], key, clock)
    {
      assert SameWrite(t[rk], t[rk]);
    }
    RunDescends(t, t, key, clock, clock, txns);
    assert DescendsAt(t, u[Pointer(key)], key, clock);
    var was: RecordKey :| was in t && was.key == key && SameWrite(u[Pointer(key)], t[was]);
    assert RecordOk(t, was) && RecordOk(t, Pointer(key));
  }

  /** Expiring a current version does nothing unless a version with the ID and time
      that were scanned is current. */
  lemma ExpiryChecks(w: World, r: Request, n: nat)
    requires r.ExpireCurrent? && n <= |Plan(w, r)| && ExecAll(w, Plan(w, r)[..n]) != w
    ensures ExpiresCurrent(w.table, r.key, r.versionId, r.modified)
  {
    TakeOfNothing(Plan(w, r), n);
  }

  lemma TakeOfNothing(steps: seq<Step>, n: nat)
    requires n <= |steps|
    ensures steps == [] ==> steps[..n] == []
  {
  }

  // -------------------------------------------------------------------- scans

  const MAX_EXPIRY_BATCH := 10000

  datatype Expiring = Expiring(key: Bytes, versionId: Bytes, modified: int)

  /** Collects, in key order and up to the batch bound, the current versions that
      have expired. */
  method ScanCurrent(t: Table, prefix: Bytes, now: int, cutoff: int) returns (due: seq<Expiring>)
    requires Consistent(t)
    ensures |due| <= 10000
    ensures forall e :: e in due ==>
              var found := Lookup(t, e.key, "");
              && found.Some? && HasPrefix(e.key, prefix) && now - found.value.modified > cutoff
              && found.value.versionId == e.versionId && found.value.modified == e.modified
    ensures forall i, j :: 0 <= i < j < |due| ==> Lt(due[i].key, due[j].key)
    ensures forall k :: Lookup(t, k, "").Some? && HasPrefix(k, prefix) && now - Lookup(t, k, "").value.modified > cutoff ==>
              (exists e :: e in due && e.key == k) || (|due| == 10000 && Lt(due[|due| - 1].key, k))
  {
    due := [];
    var rest := PointerKeys(t);
    while rest != {}
      invariant rest <= PointerKeys(t) && |due| <= MAX_EXPIRY_BATCH
      invariant forall e :: e in due ==>
                  var found := Lookup(t, e.key, "");
                  && found.Some? && HasPrefix(e.key, prefix) && now - found.value.modified > cutoff
                  && found.value.versionId == e.versionId && found.value.modified == e.modified
      invariant forall i, j :: 0 <= i < j < |due| ==> Lt(due[i].key, due[j].key)
      invariant forall e, k :: e in due && k in rest ==> Lt(e.key, k)
      invariant forall k :: Lookup(t, k, "").Some? && HasPrefix(k, prefix) && now - Lookup(t, k, "").value.modified > cutoff ==>
                  k in rest || exists e :: e in due && e.key == k
      decreases |rest|
    {
      var k := First(rest);
      var m := t[Pointer(k)];
      if |due| >= MAX_EXPIRY_BATCH {
        return;
      }
      assert RecordOk(t, Pointer(k));
      if HasPrefix(m.key, prefix) && now - m.modified > cutoff {
        ghost var before := due;
        due := due + [Expiring(m.key, m.versionId, m.modified)];
        assert due[|before|].key == k;
        assert forall e :: e in before ==> e in due;
      }
      rest := rest - {k};
    }
  }
}
