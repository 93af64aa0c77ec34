/** Which versions survive on a versioned bucket while requests on different keys
    and changes of versioning are interleaved. A delete reads the status of
    versioning before it commits and holds no lock that would keep the status from
    changing in between. */
module VersionSurvival {
  import opened ByteOrder
  import opened Records
  import opened Publication
  import opened CrashSafety
  import opened Versioning
  import opened Locality
  import I = Interleaving
  import ER = EngineRuns
  import H = History

  /** The version "null" of the key, or an unversioned object that answers to it. */
  predicate HoldsNull(t: Table, key: Bytes) {
    Lookup(t, key, "null").Some? && !Lookup(t, key, "null").value.isDeleteMarker
  }

  // --------------------------------------------------- what a transaction loses

  lemma NullMarkerKeepsIff(t: Table, key: Bytes, time: int)
    requires Consistent(t) && !NeedsPromotion(t, key)
    ensures Keeps(t, Put(t, DeleteMarker(key, time, "null")), {}) <==> !HoldsNull(t, key)
    ensures !HoldsNull(Put(t, DeleteMarker(key, time, "null")), key)
  {
    var marker := DeleteMarker(key, time, "null");
    var u := Put(t, marker);
    PutGet(t, marker, Version(key, "null"));
    if !HoldsNull(t, key) {
      forall k, v | v != "" && Lookup(t, k, v).Some? && !Lookup(t, k, v).value.isDeleteMarker
        ensures Lookup(u, k, v).Some? && SameObject(Lookup(u, k, v).value, Lookup(t, k, v).value)
      {
        PutGet(t, marker, Version(k, v));
        PutGet(t, marker, Pointer(k));
        assert Pointer(k) in t ==> RecordOk(t, Pointer(k));
      }
    }
  }

  /** A bucket that was never versioned has no version but "null", which deleting
      that version before versioning is enabled can leave. */
  ghost predicate OnlyNull(t: Table) {
    forall rk :: rk in t && rk.Version? ==> rk.versionId == "null"
  }

  ghost predicate KeyOnlyNull(t: Table, key: Bytes) {
    forall v :: Version(key, v) in t ==> v == "null"
  }

  lemma WholeKeyKeepsIff(t: Table, key: Bytes, but: set<Bytes>)
    requires Consistent(t) && KeyOnlyNull(t, key)
    ensures Keeps(t, DeleteKey(t, key), but) <==> "null" in but || !HoldsNull(t, key)
    ensures !HoldsNull(DeleteKey(t, key), key)
  {
    var u := DeleteKey(t, key);
    assert Version(key, "null") !in u && Pointer(key) !in u;
    if "null" in but || !HoldsNull(t, key) {
      forall k, v | v != "" && v !in but && Lookup(t, k, v).Some? && !Lookup(t, k, v).value.isDeleteMarker
        ensures Lookup(u, k, v).Some? && SameObject(Lookup(u, k, v).value, Lookup(t, k, v).value)
      {
        assert k == key && Version(k, v) in t ==> v == "null";
      }
    }
  }

  /** A delete marker expires only as the last version of its key. */
  lemma LastMarkerHoldsNoNull(t: Table, key: Bytes, v: Bytes, modified: int)
    requires Consistent(t) && ExpiresCurrent(t, key, v, modified) && t[Pointer(key)].isDeleteMarker
    ensures !HoldsNull(t, key)
  {
    assert RecordOk(t, Pointer(key));
    if Version(key, "null") in t {
      var info := t[Version(key, "null")];
      assert RecordOk(t, Version(key, "null"));
      assert Primary(t, Version(key, "null"));
      KeyVersionsAreStored(t, key, info);
    }
  }

  // ------------------------------------------------------------ what a step loses

  /** The main transaction of a request: not the promotion before it. */
  predicate IsMain(step: Step) {
    step.Commit? && !step.txn.PutMetaRaw?
  }

  /** The table before the main transaction of a request. */
  ghost predicate Readied(w: World, r: Request, t: Table) {
    t == w.table || (NeedsPromotion(w.table, RequestKey(r)) && t == PutRaw(w.table, Promoted(w, RequestKey(r), CopyId(r))))
  }

  lemma MainKeepsIff(w: World, r: Request, t: Table, txn: Txn, now: Status)
    requires Safe(w) && Fresh(w, r) && NamesNoVersion(r) && MainTxn(w, r, txn) && Readied(w, r, t)
    requires Consistent(t) && (txn.PutMeta? && txn.info.versionId != "" ==> !NeedsPromotion(t, txn.info.key))
    requires now != Unversioned && (r.PutObject? ==> w.status == now) && (w.status == Unversioned ==> KeyOnlyNull(w.table, r.key))
    ensures Keeps(t, Apply(t, txn), Replaceable(now)) <==>
            !(now == Enabled && w.status != Enabled && HoldsNull(t, r.key))
    ensures now == Enabled && w.status != Enabled && HoldsNull(t, r.key) ==> !HoldsNull(Apply(t, txn), r.key)
  {
    if txn.DeleteMeta? && txn.versionId != "" {
      assert RecordOk(w.table, Pointer(r.key));
      MarkerDeleteKeeps(t, r.key, txn.versionId);
      LastMarkerHoldsNoNull(t, r.key, r.versionId, r.modified);
      KeepsMore(t, Apply(t, txn), {}, Replaceable(now));
    } else if w.status == Unversioned {
      assert KeyOnlyNull(t, r.key);
      WholeKeyKeepsIff(t, r.key, Replaceable(now));
    } else if w.status == Suspended && now == Enabled {
      NullMarkerKeepsIff(t, r.key, r.time);
    } else {
      MainKeeps(w, t, r, txn);
      KeepsMore(t, Apply(t, txn), Replaceable(w.status), Replaceable(now));
    }
  }

  lemma CommitAt(steps: seq<Step>, n: nat) returns (m: nat)
    requires n < |steps| && steps[n].Commit?
    ensures m < |Commits(steps)| && Commits(steps)[m] == steps[n].txn && Commits(steps)[..m] == Commits(steps[..n])
  {
    m := |Commits(steps[..n])|;
    assert steps == steps[..n] + steps[n..];
    CommitsConcat(steps[..n], steps[n..]);
  }

  /** The records on the way through a plan, before its step `n`. */
  ghost function TableAt(w: World, r: Request, n: nat): Table
    requires n <= |Plan(w, r)|
  {
    ExecAll(w, Plan(w, r)[..n]).table
  }

  /** A transaction of a plan is the promotion, made first, or the main one. */
  lemma WhichTxn(w: World, r: Request, n: nat)
    requires Safe(w) && Fresh(w, r) && !r.SetVersioning? && n < |Plan(w, r)| && Plan(w, r)[n].Commit?
    ensures
      var t, txn := TableAt(w, r, n), Plan(w, r)[n].txn;
      if txn.PutMetaRaw? then
        t == w.table && NeedsPromotion(t, r.key) && txn == PutMetaRaw(Promoted(w, r.key, r.copyId))
      else
        && MainTxn(w, r, txn) && Readied(w, r, t) && Consistent(t)
        && (txn.PutMeta? && txn.info.versionId != "" ==> !NeedsPromotion(t, r.key))
  {
    var txns := Commits(Plan(w, r));
    var m := CommitAt(Plan(w, r), n);
    PlanCommits(w, r);
    var p: nat :| p <= |txns| && ShapeAt(w, r, txns, p);
    TableFollowsCommits(w, Plan(w, r)[..n]);
    if p == 1 {
      assert txns[0] == txns[..1][0];
      PromotionFacts(w, r);
      ApplyOne(w.table, txns[..1]);
    }
    if m == p {
      MainNotRaw(w, r, txns[m]);
    }
  }

  /** At its main transaction, a request that read a status other than the present
      one loses a version in exactly one case. */
  lemma StepKeepsIff(w: World, r: Request, n: nat, now: Status)
    requires Safe(w) && Fresh(w, r) && NamesNoVersion(r) && !r.SetVersioning? && n < |Plan(w, r)| && Plan(w, r)[n].Commit?
    requires now != Unversioned && (r.PutObject? ==> w.status == now) && (w.status == Unversioned ==> KeyOnlyNull(w.table, r.key))
    ensures
      var t, txn := TableAt(w, r, n), Plan(w, r)[n].txn;
      Keeps(t, Apply(t, txn), Replaceable(now)) <==>
      !(now == Enabled && w.status != Enabled && !txn.PutMetaRaw? && HoldsNull(t, r.key))
  {
    WhichTxn(w, r, n);
    var t, txn := TableAt(w, r, n), Plan(w, r)[n].txn;
    if txn.PutMetaRaw? {
      PromotionFacts(w, r);
      KeepsMore(t, Apply(t, txn), {}, Replaceable(now));
    } else {
      MainHasKey(w, r, txn);
      MainKeepsIff(w, r, t, txn, now);
    }
  }

  lemma MainHasKey(w: World, r: Request, txn: Txn)
    requires MainTxn(w, r, txn)
    ensures H.TxnKey(txn) == r.key
  {
  }

  lemma MainNotRaw(w: World, r: Request, txn: Txn)
    requires MainTxn(w, r, txn)
    ensures !txn.PutMetaRaw?
  {
  }

  // ----------------------------------------------------------- a whole delete

  lemma PromotionKeepsNull(t: Table, info: ObjectInfo)
    requires Consistent(t) && Promotes(t, info)
    ensures HoldsNull(PutRaw(t, info), info.key) <==> HoldsNull(t, info.key)
  {
    assert RecordOk(t, Pointer(info.key));
  }

  /** The records before and after the main transaction of a delete that goes
      through, on the status `seen`. */
  lemma DeleteTables(w: World, seen: Status, key: Bytes, time: int, uuid: Bytes, copyId: Bytes) returns (t: Table, txn: Txn)
    requires Safe(w) && FreshBlob(w, copyId) && (seen != Unversioned || Pointer(key) in w.table)
    ensures
      var r := DeleteRequest(key, "", time, uuid, copyId, Faults(false, Done, false));
      && Readied(w, r, t) && MainTxn(w.(status := seen), r, txn)
      && (txn.PutMeta? ==> !NeedsPromotion(t, key))
      && ExecAll(w, DeleteObject(w, seen, key, "", time, uuid, copyId, r.faults)).table == Apply(t, txn)
  {
    var faults := Faults(false, Done, false);
    var steps := DeleteObject(w, seen, key, "", time, uuid, copyId, faults);
    TableFollowsCommits(w, steps);
    if seen == Unversioned {
      t, txn := w.table, DeleteMeta(key, "");
      RemovalsCommitNothing(KeyVersions(t, key));
      CommitsConcat([Commit(txn)], RemoveEach(KeyVersions(t, key)));
      OneCommit(Commit(txn));
    } else {
      var before := Promotion(w, key, copyId, false);
      var w1 := ExecAll(w, before.steps);
      var removed := if seen == Suspended then StoredRecord(w1.table, key, "null") else None;
      PromotionSafe(w, key, copyId, false);
      PromotionGoesThrough(w, key, copyId);
      t, txn := w1.table, PutMeta(DeleteMarker(key, time, NewVersionId(seen, uuid)));
      Concat(before.steps, [Commit(txn)], RemoveData(removed));
      MainCommits(txn, removed);
      CommitsConcat(before.steps, [Commit(txn)] + RemoveData(removed));
      TableFollowsCommits(w, before.steps);
      ApplyConcat(w.table, Commits(before.steps), [txn]);
    }
    ApplyOne(t, [txn]);
  }

  lemma PromotionGoesThrough(w: World, key: Bytes, copyId: Bytes)
    requires Safe(w)
    ensures Promotion(w, key, copyId, false).ok
  {
    if NeedsPromotion(w.table, key) {
      assert RecordOk(w.table, Pointer(key)) && HoldsData(w.table, Pointer(key));
      assert HasData(w.disk, w.table[Pointer(key)]);
    }
  }

  /** A delete that names no version and goes through keeps every version it may not
      replace, unless versioning is enabled by the time it commits, it read another
      status before, and the key has a "null" version that holds data. */
  lemma DeleteKeepsIff(w: World, seen: Status, key: Bytes, time: int, uuid: Bytes, copyId: Bytes)
    requires Safe(w) && w.status != Unversioned && (seen == Unversioned ==> KeyOnlyNull(w.table, key))
    requires FreshBlob(w, copyId) && FreshVersion(w.table, key, uuid)
    ensures
      var steps := DeleteObject(w, seen, key, "", time, uuid, copyId, Faults(false, Done, false));
      Keeps(w.table, ExecAll(w, steps).table, Replaceable(w.status)) <==>
      !(w.status == Enabled && seen != Enabled && HoldsNull(w.table, key))
  {
    var r := DeleteRequest(key, "", time, uuid, copyId, Faults(false, Done, false));
    if seen == Unversioned && Pointer(key) !in w.table {
      assert Version(key, "null") in w.table ==> RecordOk(w.table, Version(key, "null"));
    } else {
      var t, txn := DeleteTables(w, seen, key, time, uuid, copyId);
      if t != w.table {
        var info := Promoted(w, key, copyId);
        PromotionFacts(w, r);
        PromotionKeepsNull(w.table, info);
        KeepsMore(w.table, t, {}, Replaceable(w.status));
      }
      MainKeepsIff(w.(status := seen), r, t, txn, w.status);
      if Keeps(t, Apply(t, txn), Replaceable(w.status)) {
        KeepsTransitive(w.table, t, Apply(t, txn), Replaceable(w.status));
      }
    }
  }

  // ------------------------------------------- buckets that were never versioned

  lemma TxnOnlyNull(t: Table, txn: Txn)
    requires OnlyNull(t)
    requires txn.PutMeta? ==> txn.info.versionId == ""
    requires txn.PutMetaRaw? ==> txn.info.versionId == "null"
    ensures OnlyNull(Apply(t, txn))
  {
    var u := Apply(t, txn);
    forall rk | rk in u && rk.Version?
      ensures rk.versionId == "null"
    {
      match txn
      case PutMeta(info) => PutGet(t, info, rk);
      case PutMetaRaw(_) =>
      case DeleteMeta(key, v) =>
        if v != "" {
          DeleteVersionGet(t, key, v, rk);
        }
    }
  }

  lemma MainUnversioned(w: World, r: Request, txn: Txn)
    requires w.status == Unversioned && MainTxn(w, r, txn)
    ensures !txn.PutMetaRaw? && (txn.PutMeta? ==> txn.info.versionId == "")
  {
  }

  lemma AfterOnlyNull(w: World, e: Event)
    requires Safe(w) && Fresh(w, e.request) && w.status == Unversioned && OnlyNull(w.table)
    ensures OnlyNull(After(w, e).table)
  {
    var txns := ER.Committed(w, e);
    ER.CommittedCases(w, e);
    TableFollowsCommits(w, Taken(w, e));
    if txns != [] {
      if MainTxn(w, e.request, txns[0]) {
        MainUnversioned(w, e.request, txns[0]);
      }
      TxnOnlyNull(w.table, txns[0]);
      if |txns| == 1 {
        ApplyOne(w.table, txns);
      } else {
        MainUnversioned(w, e.request, txns[1]);
        TxnOnlyNull(Apply(w.table, txns[0]), txns[1]);
        ApplyOne(Apply(w.table, txns[0]), txns[1..]);
      }
    }
  }

  /** Until versioning is first set, a bucket has no version but "null". */
  ghost predicate NeverVersioned(w: World) {
    w.status == Unversioned ==> OnlyNull(w.table)
  }

  lemma {:induction false} StageNeverVersioned(owners: Owners, log: seq<Event>, stages: I.Stages, j: nat)
    requires I.StagesOk(owners, log, stages) && Safe(stages[0]) && NeverVersioned(stages[0]) && j <= |log|
    ensures Safe(stages[j]) && NeverVersioned(stages[j])
    decreases j
  {
    if j > 0 {
      StageNeverVersioned(owners, log, stages, j - 1);
      assert I.StageOk(owners, log, stages, j - 1);
      AfterSafe(stages[j - 1], log[j - 1]);
      if stages[j - 1].status == Unversioned {
        AfterOnlyNull(stages[j - 1], log[j - 1]);
      } else {
        StatusAfter(stages[j - 1], log[j - 1]);
      }
    }
  }

  // ---------------------------------------------------------------- interleaved

  lemma KeepsAgree(t: Table, u: Table, txn: Txn, but: set<Bytes>)
    requires Agree(t, u, H.TxnKey(txn)) && Keeps(t, Apply(t, txn), but)
    ensures Keeps(u, Apply(u, txn), but)
  {
    var key := H.TxnKey(txn);
    ApplyAgrees(t, u, txn);
    forall k, v | v != "" && v !in but && Lookup(u, k, v).Some? && !Lookup(u, k, v).value.isDeleteMarker
      ensures Lookup(Apply(u, txn), k, v).Some? && SameObject(Lookup(Apply(u, txn), k, v).value, Lookup(u, k, v).value)
    {
      if k == key {
        StoredAgrees(t, u, key, v);
        StoredAgrees(Apply(t, txn), Apply(u, txn), key, v);
      } else {
        H.OtherKeys(u, txn, k);
        StoredAgrees(u, Apply(u, txn), k, v);
      }
    }
  }

  lemma KeepsAgreeIff(t: Table, u: Table, txn: Txn, but: set<Bytes>)
    requires Agree(t, u, H.TxnKey(txn))
    ensures Keeps(t, Apply(t, txn), but) <==> Keeps(u, Apply(u, txn), but)
  {
    if Keeps(t, Apply(t, txn), but) {
      KeepsAgree(t, u, txn, but);
    }
    if Keeps(u, Apply(u, txn), but) {
      KeepsAgree(u, t, txn, but);
    }
  }

  ghost predicate AgreesNext(stages: I.Stages, key: Bytes, j: nat)
    requires j + 1 < |stages|
  {
    Agree(stages[j].table, stages[j + 1].table, key)
  }

  lemma {:induction false} AgreeChain(stages: I.Stages, key: Bytes, i: nat, j: nat)
    requires i <= j < |stages| && forall k :: i <= k < j ==> AgreesNext(stages, key, k)
    ensures Agree(stages[i].table, stages[j].table, key)
    decreases j
  {
    if i < j {
      AgreeChain(stages, key, i, j - 1);
      assert AgreesNext(stages, key, j - 1);
    }
  }

  lemma AgreesHere(s: I.State, stages: I.Stages, key: Bytes, j: nat)
    requires I.StagesOk(s.owners, s.log, stages) && j < |s.log| && !I.Touches(s.log[j].request, key)
    ensures AgreesNext(stages, key, j)
  {
    assert I.StageOk(s.owners, s.log, stages, j);
    EventAgrees(s.owners, stages[j], s.log[j], key);
  }

  /** The records of its key are as a request under way has left them. */
  lemma KeyUntouched(s: I.State, stages: I.Stages, key: Bytes, at: nat)
    requires I.StagesOk(s.owners, s.log, stages) && at < |s.log|
    requires forall j :: at < j < |s.log| ==> !I.Touches(s.log[j].request, key)
    ensures Agree(stages[at + 1].table, stages[|s.log|].table, key)
  {
    forall j | at < j < |s.log|
      ensures AgreesNext(stages, key, j)
    {
      AgreesHere(s, stages, key, j);
    }
    AgreeChain(stages, key, at + 1, |s.log|);
  }

  /** The stage at which a request under way began, and the records of its key as the
      request has left them. */
  lemma CallStage(s: I.State, stages: I.Stages, key: Bytes) returns (w: World)
    requires I.Inv(s, stages) && NeverVersioned(stages[0]) && I.Enabled(s, I.Take(key))
    ensures
      var c := s.calls[key];
      && Safe(w) && Fresh(w, c.request) && NeverVersioned(w) && I.Touches(c.request, key)
      && c.plan == Plan(w, c.request) && c.seen == w.status && (c.request.PutObject? ==> c.seen == s.world.status)
      && Agree(TableAt(w, c.request, c.taken), s.world.table, key)
  {
    var c := s.calls[key];
    w := stages[c.at];
    assert I.CallOk(s, stages, key) && I.StageOk(s.owners, s.log, stages, c.at);
    StageNeverVersioned(s.owners, s.log, stages, c.at);
    KeyUntouched(s, stages, key, c.at);
    StageTable(s, stages, c.at);
  }

  lemma StageTable(s: I.State, stages: I.Stages, at: nat)
    requires at < |s.log| < |stages| && I.StageOk(s.owners, s.log, stages, at)
    requires s.log[at].crash.Some? && s.log[at].crash.value <= |Plan(stages[at], s.log[at].request)|
    ensures TableAt(stages[at], s.log[at].request, s.log[at].crash.value) == stages[at + 1].table
  {
  }

  lemma EventAgrees(owners: Owners, w: World, e: Event, key: Bytes)
    requires TableOwned(owners, w.table) && Drawn(owners, e.request) && !I.Touches(e.request, key)
    ensures Agree(w.table, After(w, e).table, key)
  {
    I.AfterOwned(owners, w, e);
    if e.request.SetVersioning? {
      TableFollowsCommits(w, Taken(w, e));
      ER.SetVersioningCommitsNothing(w, e.request);
    } else {
      StepsAgree(owners, w, e.request.key, Taken(w, e), key);
    }
  }

  /** The same with other keys changed in between. */
  lemma CommitKeepsIff(w: World, r: Request, n: nat, u: Table, now: Status)
    requires Safe(w) && Fresh(w, r) && NamesNoVersion(r) && !r.SetVersioning? && n < |Plan(w, r)| && Plan(w, r)[n].Commit?
    requires now != Unversioned && (r.PutObject? ==> w.status == now) && NeverVersioned(w)
    requires Agree(TableAt(w, r, n), u, r.key) && H.TxnKey(Plan(w, r)[n].txn) == r.key
    ensures
      var txn := Plan(w, r)[n].txn;
      Keeps(u, Apply(u, txn), Replaceable(now)) <==>
      !(now == Enabled && w.status != Enabled && !txn.PutMetaRaw? && HoldsNull(u, r.key))
  {
    StepKeepsIff(w, r, n, now);
    StoredAgrees(TableAt(w, r, n), u, r.key, "null");
    KeepsAgreeIff(TableAt(w, r, n), u, Plan(w, r)[n].txn, Replaceable(now));
  }

  /** A request that read another status than the present one is about to commit its
      main transaction on a bucket enabled since, on a key with a "null" version. */
  ghost predicate Overtaken(s: I.State, key: Bytes)
    requires I.Enabled(s, I.Take(key))
  {
    && s.world.status == Enabled && s.calls[key].seen != Enabled
    && IsMain(I.NextStep(s, key)) && HoldsNull(s.world.table, key)
  }

  /** At any point of any interleaving: a step of a request that names no version
      keeps every version it may not replace if and only if the request has not been
      overtaken. */
  lemma TakeKeepsIff(s: I.State, stages: I.Stages, key: Bytes)
    requires I.Inv(s, stages) && NeverVersioned(stages[0]) && I.Enabled(s, I.Take(key))
    requires s.world.status != Unversioned && NamesNoVersion(s.calls[key].request)
    ensures Keeps(s.world.table, I.Next(s, I.Take(key)).world.table, Replaceable(s.world.status)) <==> !Overtaken(s, key)
  {
    var c, step := s.calls[key], I.NextStep(s, key);
    var w := CallStage(s, stages, key);
    I.NextStepOf(s, stages, key);
    if step.Commit? {
      CommitKeepsIff(w, c.request, c.taken, s.world.table, s.world.status);
    } else {
      assert I.Next(s, I.Take(key)).world.table == s.world.table;
    }
  }

  // ------------------------------------------------------------------ whole runs

  ghost predicate NamesNone(s: I.State, actions: seq<I.Action>) {
    && (forall key :: key in s.calls ==> NamesNoVersion(s.calls[key].request))
    && (forall i :: 0 <= i < |actions| && actions[i].Begin? ==> NamesNoVersion(actions[i].request))
  }

  ghost predicate NoneOvertaken(s: I.State, actions: seq<I.Action>)
    requires I.Runs(s, actions)
    decreases |actions|
  {
    actions == [] ||
    ((actions[0].Take? ==> !Overtaken(s, actions[0].key)) && NoneOvertaken(I.Next(s, actions[0]), actions[1..]))
  }

  /** The version IDs a run may replace: none while the bucket stays enabled, "null"
      if it may be suspended. */
  predicate MayReplace(status: Status, actions: seq<I.Action>, but: set<Bytes>) {
    "null" in but || (status == Enabled && I.Switch(Some(Suspended)) !in actions)
  }

  lemma TakeKeeps(s: I.State, stages: I.Stages, key: Bytes, but: set<Bytes>)
    requires I.Inv(s, stages) && NeverVersioned(stages[0]) && I.Enabled(s, I.Take(key)) && s.world.status != Unversioned
    requires NamesNoVersion(s.calls[key].request) && !Overtaken(s, key) && Replaceable(s.world.status) <= but
    ensures Keeps(s.world.table, I.Next(s, I.Take(key)).world.table, but)
    ensures I.Next(s, I.Take(key)).world.status == s.world.status
  {
    I.NextStepOf(s, stages, key);
    TakeKeepsIff(s, stages, key);
    KeepsMore(s.world.table, I.Next(s, I.Take(key)).world.table, Replaceable(s.world.status), but);
  }

  lemma SwitchKeeps(s: I.State, requested: Option<Status>)
    requires I.Enabled(s, I.Switch(requested)) && s.world.status != Unversioned
    ensures I.Next(s, I.Switch(requested)).world.table == s.world.table
    ensures
      var status := I.Next(s, I.Switch(requested)).world.status;
      status != Unversioned && (status == s.world.status || requested == Some(status))
  {
    var steps := Reconfigure(requested);
    if steps != [] {
      assert ExecAll(s.world, steps) == ExecAll(Exec(s.world, steps[0]), []);
    }
  }

  lemma StepKeeps(s: I.State, stages: I.Stages, a: I.Action, but: set<Bytes>)
    requires I.Inv(s, stages) && NeverVersioned(stages[0]) && I.Enabled(s, a) && s.world.status != Unversioned
    requires a.Take? ==> NamesNoVersion(s.calls[a.key].request) && !Overtaken(s, a.key)
    requires MayReplace(s.world.status, [a], but)
    ensures Keeps(s.world.table, I.Next(s, a).world.table, but)
    ensures I.Next(s, a).world.status != Unversioned && MayReplace(I.Next(s, a).world.status, [], but)
  {
    assert [a][0] == a;
    match a
    case Take(key) => TakeKeeps(s, stages, key, but);
    case Switch(requested) => SwitchKeeps(s, requested);
    case _ =>
  }

  lemma NamesNoneNext(s: I.State, actions: seq<I.Action>)
    requires I.Runs(s, actions) && actions != [] && NamesNone(s, actions)
    ensures NamesNone(I.Next(s, actions[0]), actions[1..])
  {
  }

  lemma {:induction false} RunKeeps(s: I.State, stages: I.Stages, actions: seq<I.Action>, but: set<Bytes>)
    requires I.Inv(s, stages) && NeverVersioned(stages[0]) && I.Runs(s, actions) && s.world.status != Unversioned
    requires NamesNone(s, actions) && NoneOvertaken(s, actions) && MayReplace(s.world.status, actions, but)
    ensures Keeps(s.world.table, I.Final(s, actions).world.table, but)
    decreases |actions|
  {
    if actions != [] {
      var s1 := I.Next(s, actions[0]);
      var moved := I.StepKeepsInv(s, stages, actions[0]);
      StepKeeps(s, stages, actions[0], but);
      NamesNoneNext(s, actions);
      RunKeeps(s1, moved, actions[1..], but);
      KeepsTransitive(s.world.table, s1.world.table, I.Final(s1, actions[1..]).world.table, but);
    }
  }

  /** On a versioned bucket, however puts and deletes that name no version, sweeps of
      current versions, changes of versioning and crashes are interleaved, every
      version stays stored with the same bytes if no request is overtaken:
      all of them while the bucket stays enabled, the object from before versioning
      included as "null"; all but "null" if it may be suspended on the way. */
  lemma VersionsSurvive(s: I.State, before: seq<I.Action>, after: seq<I.Action>, key: Bytes, v: Bytes)
    requires I.Starts(s) && NeverVersioned(s.world) && I.Runs(s, before) && I.Runs(I.Final(s, before), after)
    requires
      var s1 := I.Final(s, before);
      && s1.world.status != Unversioned && NamesNone(s1, after) && NoneOvertaken(s1, after)
      && v != "" && Read(s1.world, key, v).Some?
      && (v == "null" ==> MayReplace(s1.world.status, after, {}))
    ensures Read(I.Final(I.Final(s, before), after).world, key, v) == Read(I.Final(s, before).world, key, v)
  {
    var s1 := I.Final(s, before);
    var stages := I.Reach(s, before);
    RunKeeps(s1, stages, after, if MayReplace(s1.world.status, after, {}) then {} else {"null"});
    var last := I.RunKeepsInv(s1, stages, after);
    InvSafe(s1, stages);
    InvSafe(I.Final(s1, after), last);
    ReadHasData(s1.world, key, v);
    ReadHasData(I.Final(s1, after).world, key, v);
  }

  lemma InvSafe(s: I.State, stages: I.Stages)
    requires I.Inv(s, stages)
    ensures Safe(s.world)
  {
    I.StagesAreRun(s.owners, s.log, stages);
    RunSafe(stages[0], s.log);
  }

  lemma ReadHasData(w: World, key: Bytes, v: Bytes)
    requires Safe(w)
    ensures
      var found := Lookup(w.table, key, v);
      found.Some? && !found.value.isDeleteMarker ==> HasData(w.disk, found.value)
  {
    ReadableAfterRun(w, [], key, v);
  }

  /** No change of versioning while a request is under way. */
  ghost predicate SwitchesWait(s: I.State, actions: seq<I.Action>)
    requires I.Runs(s, actions)
    decreases |actions|
  {
    actions == [] ||
    ((actions[0].Switch? ==> s.calls == map[]) && SwitchesWait(I.Next(s, actions[0]), actions[1..]))
  }

  lemma SeenStays(s: I.State, stages: I.Stages, a: I.Action)
    requires I.Inv(s, stages) && I.Enabled(s, a) && (a.Switch? ==> s.calls == map[])
    requires forall key :: key in s.calls ==> s.calls[key].seen == s.world.status
    ensures forall key :: key in I.Next(s, a).calls ==> I.Next(s, a).calls[key].seen == I.Next(s, a).world.status
  {
    if a.Take? {
      I.NextStepOf(s, stages, a.key);
    }
  }

  /** If versioning changes only while no request is under way, none is overtaken. */
  lemma {:induction false} WaitingSwitchesOvertakeNone(s: I.State, stages: I.Stages, actions: seq<I.Action>)
    requires I.Inv(s, stages) && I.Runs(s, actions) && SwitchesWait(s, actions)
    requires forall key :: key in s.calls ==> s.calls[key].seen == s.world.status
    ensures NoneOvertaken(s, actions)
    decreases |actions|
  {
    if actions != [] {
      SeenStays(s, stages, actions[0]);
      var moved := I.StepKeepsInv(s, stages, actions[0]);
      WaitingSwitchesOvertakeNone(I.Next(s, actions[0]), moved, actions[1..]);
    }
  }

  /** A delete begun before versioning is enabled erases an object stored before
      versioning from the enabled bucket, leaving no marker, whenever it commits
      after that. */
  lemma OvertakenDeleteErases(s: I.State, key: Bytes, time: int, uuid: Bytes, copyId: Bytes)
    requires I.Starts(s) && s.world.status == Unversioned && NeedsPromotion(s.world.table, key)
    requires I.Enabled(s, I.Begin(DeleteRequest(key, "", time, uuid, copyId, Faults(false, Done, false))))
    ensures
      var s1 := I.Next(s, I.Begin(DeleteRequest(key, "", time, uuid, copyId, Faults(false, Done, false))));
      I.Enabled(s1, I.Switch(Some(Enabled))) &&
      var s2 := I.Next(s1, I.Switch(Some(Enabled)));
      s2.world.status == Enabled && Read(s2.world, key, "null").Some? && I.Enabled(s2, I.Take(key)) &&
      var s3 := I.Next(s2, I.Take(key));
      s3.world.status == Enabled && Pointer(key) !in s3.world.table && forall v :: Read(s3.world, key, v).None?
  {
    var t := s.world.table;
    assert RecordOk(t, Pointer(key)) && HoldsData(t, Pointer(key));
    var s2 := I.Next(I.Next(s, I.Begin(DeleteRequest(key, "", time, uuid, copyId, Faults(false, Done, false)))), I.Switch(Some(Enabled)));
    assert ExecAll(s.world, [Configure(Enabled)]) == ExecAll(Exec(s.world, Configure(Enabled)), []);
    assert I.NextStep(s2, key) == Commit(DeleteMeta(key, ""));
  }
}
