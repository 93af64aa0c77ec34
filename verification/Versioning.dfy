/** What versioning promises over whole runs of the engine, crashes included. */
module Versioning {
  import opened ByteOrder
  import opened Records
  import opened Publication
  import opened CrashSafety
  import H = History

  // ------------------------------------------- the transactions a plan commits

  function Commits(steps: seq<Step>): seq<Txn> {
    if steps == [] then []
    else (match steps[0]
          case Commit(txn) => [txn]
          case _ => []) + Commits(steps[1..])
  }

  lemma {:induction false} CommitsConcat(a: seq<Step>, b: seq<Step>)
    ensures Commits(a + b) == Commits(a) + Commits(b)
    decreases |a|
  {
    if a == [] {
      assert a + b == b;
    } else {
      assert (a + b)[1..] == a[1..] + b;
      CommitsConcat(a[1..], b);
    }
  }

  /** Only commits change the records. */
  lemma {:induction false} TableFollowsCommits(w: World, steps: seq<Step>)
    ensures ExecAll(w, steps).table == H.ApplyAll(w.table, Commits(steps))
    decreases |steps|
  {
    if steps != [] {
      TableFollowsCommits(Exec(w, steps[0]), steps[1..]);
      if steps[0].Commit? {
        assert Commits(steps)[1..] == Commits(steps[1..]);
      } else {
        assert [] + Commits(steps[1..]) == Commits(steps[1..]);
      }
    }
  }

  lemma {:induction false} RemovalsCommitNothing(recs: seq<ObjectInfo>)
    ensures Commits(RemoveEach(recs)) == []
    decreases |recs|
  {
    if recs != [] {
      CommitsConcat(RemoveData(Some(recs[0])), RemoveEach(recs[1..]));
      OneRemovalCommitsNothing(Some(recs[0]));
      RemovalsCommitNothing(recs[1..]);
    }
  }

  lemma OneRemovalCommitsNothing(rec: Option<ObjectInfo>)
    ensures Commits(RemoveData(rec)) == []
  {
    if rec.Some? && !rec.value.isDeleteMarker {
      assert [Remove(DataPath(rec.value))][1..] == [];
    }
  }

  lemma OneCommit(step: Step)
    ensures Commits([step]) == if step.Commit? then [step.txn] else []
  {
    assert [step][1..] == [];
  }

  ghost function PromotionTxns(w: World, key: Bytes, copyId: Bytes): seq<Txn> {
    if NeedsPromotion(w.table, key) then [PutMetaRaw(Promoted(w, key, copyId))] else []
  }

  lemma PromotionCommits(w: World, key: Bytes, copyId: Bytes, fails: bool)
    ensures
      var p := Promotion(w, key, copyId, fails);
      Commits(p.steps) == if p.ok then PromotionTxns(w, key, copyId) else []
  {
    var p := Promotion(w, key, copyId, fails);
    if |p.steps| >= 1 {
      OneCommit(p.steps[|p.steps| - 1]);
      if |p.steps| >= 2 {
        CommitsConcat(p.steps[..1], p.steps[1..]);
        OneCommit(p.steps[0]);
        assert p.steps == p.steps[..1] + p.steps[1..];
        assert p.steps[..1] == [p.steps[0]];
        if |p.steps| == 3 {
          CommitsConcat([p.steps[1]], [p.steps[2]]);
          OneCommit(p.steps[1]);
          assert p.steps[1..] == [p.steps[1]] + [p.steps[2]];
        } else {
          assert p.steps[1..] == [p.steps[1]];
        }
      }
    }
  }

  /** The main transaction of a request, with the key's state after promotion. */
  ghost predicate MainTxn(w: World, r: Request, txn: Txn) {
    match r
    case PutObject(key, data, attributes, time, uuid, blobId, _, _) =>
      txn == PutMeta(NewObject(w.status, key, data, attributes, time, uuid, blobId))
    case DeleteRequest(key, versionId, time, uuid, _, _) => DeleteTxn(w, key, versionId, time, uuid, txn)
    case ExpireCurrent(key, versionId, modified, time, uuid, _, _) =>
      && ExpiresCurrent(w.table, key, versionId, modified)
      && DeleteTxn(w, key, if w.table[Pointer(key)].isDeleteMarker then versionId else "", time, uuid, txn)
    case ExpireNoncurrent(key, versionId, now, cutoff, _, _) =>
      && ExpiresNoncurrent(w.table, key, versionId, now, cutoff)
      && txn == DeleteMeta(key, versionId)
    case SetVersioning(_) => false
  }

  ghost predicate DeleteTxn(w: World, key: Bytes, versionId: Bytes, time: int, uuid: Bytes, txn: Txn) {
    if versionId != "" || w.status == Unversioned then
      txn == DeleteMeta(key, versionId)
    else
      txn == PutMeta(DeleteMarker(key, time, NewVersionId(w.status, uuid)))
  }

  /** Every request commits at most a promotion of its key and one transaction
      more, in that order; no write with a version ID goes ahead while its key
      still holds an unversioned object. */
  ghost predicate CommitShape(w: World, r: Request, txns: seq<Txn>) {
    exists n: nat :: n <= |txns| && ShapeAt(w, r, txns, n)
  }

  ghost predicate ShapeAt(w: World, r: Request, txns: seq<Txn>, n: nat)
    requires n <= |txns|
  {
    && (n == 0 || (n == 1 && NeedsPromotion(w.table, RequestKey(r)) && txns[..1] == PromotionTxns(w, RequestKey(r), CopyId(r))))
    && (|txns| == n ||
        (|txns| == n + 1 && MainTxn(w, r, txns[n]) &&
         (txns[n].PutMeta? && txns[n].info.versionId != "" && NeedsPromotion(w.table, RequestKey(r)) ==> n == 1) &&
         (txns[n].DeleteMeta? && txns[n].versionId == "null" && NeedsPromotion(w.table, RequestKey(r)) ==> n == 1)))
  }

  function RequestKey(r: Request): Bytes {
    match r
    case SetVersioning(_) => ""
    case _ => r.key
  }

  function CopyId(r: Request): Bytes {
    match r
    case SetVersioning(_) => ""
    case _ => r.copyId
  }

  lemma PutCommits(w: World, r: Request)
    requires r.PutObject?
    ensures CommitShape(w, r, Commits(Plan(w, r)))
  {
    var info := NewObject(w.status, r.key, r.data, r.attributes, r.time, r.uuid, r.blobId);
    var obsolete := if info.versionId == "" then KeyVersions(w.table, r.key) else [];
    var before := if info.versionId == "" then Part([], true) else Promotion(w, r.key, r.copyId, r.faults.promotion);
    PromotionCommits(w, r.key, r.copyId, r.faults.promotion);
    var first := Commits(before.steps);
    if before.ok {
      var replaced := if info.versionId == "" || info.versionId == "null"
                      then StoredRecord(ExecAll(w, before.steps).table, r.key, info.versionId) else None;
      var rest := PublishSteps(info, r.data, r.faults, replaced, obsolete);
      TailCommits(info, r.data, r.faults, replaced, obsolete);
      CommitsConcat(before.steps, rest);
      assert Plan(w, r) == before.steps + rest;
      if r.faults.commit || !r.faults.publish.Done? {
        assert first + [] == first && first[..|first|] == first;
        assert ShapeAt(w, r, first, |first|);
      } else {
        Shape(w, r, first, PutMeta(info));
      }
    } else {
      assert ShapeAt(w, r, Commits(Plan(w, r)), 0);
    }
  }

  lemma TailCommits(info: ObjectInfo, data: Bytes, faults: Faults, replaced: Option<ObjectInfo>, obsolete: seq<ObjectInfo>)
    ensures Commits(PublishSteps(info, data, faults, replaced, obsolete)) ==
            if faults.commit || !faults.publish.Done? then [] else [PutMeta(info)]
  {
    var publish := Publish(Blob(info.blobId), data);
    OneCommit(publish);
    if faults.publish.Done? {
      if faults.commit {
        OneCommit(Remove(Blob(info.blobId)));
        CommitsConcat([publish], [Remove(Blob(info.blobId))]);
      } else {
        MainCommits(PutMeta(info), replaced);
        RemovalsCommitNothing(obsolete);
        CommitsConcat([Commit(PutMeta(info))] + RemoveData(replaced), RemoveEach(obsolete));
        CommitsConcat([publish], [Commit(PutMeta(info))] + RemoveData(replaced) + RemoveEach(obsolete));
      }
    }
  }

  lemma MainCommits(txn: Txn, replaced: Option<ObjectInfo>)
    ensures Commits([Commit(txn)] + RemoveData(replaced)) == [txn]
  {
    OneRemovalCommitsNothing(replaced);
    CommitsConcat([Commit(txn)], RemoveData(replaced));
    assert [Commit(txn)][1..] == [];
  }

  lemma DeleteCommits(w: World, r: Request, versionId: Bytes, time: int, uuid: Bytes)
    requires !r.SetVersioning? && !r.PutObject?
    requires forall txn :: DeleteTxn(w, r.key, versionId, time, uuid, txn) ==> MainTxn(w, r, txn)
    ensures CommitShape(w, r, Commits(DeleteObject(w, w.status, r.key, versionId, time, uuid, r.copyId, r.faults)))
  {
    var steps := DeleteObject(w, w.status, r.key, versionId, time, uuid, r.copyId, r.faults);
    if versionId == "" && w.status == Unversioned {
      if steps != [] {
        OneCommit(Commit(DeleteMeta(r.key, "")));
        RemovalsCommitNothing(KeyVersions(w.table, r.key));
        CommitsConcat([Commit(DeleteMeta(r.key, ""))], RemoveEach(KeyVersions(w.table, r.key)));
      }
      assert ShapeAt(w, r, Commits(steps), 0);
    } else {
      VersionedDeleteCommits(w, r, versionId, time, uuid);
    }
  }

  lemma VersionedDeleteCommits(w: World, r: Request, versionId: Bytes, time: int, uuid: Bytes)
    requires !r.SetVersioning? && !r.PutObject? && !(versionId == "" && w.status == Unversioned)
    requires forall txn :: DeleteTxn(w, r.key, versionId, time, uuid, txn) ==> MainTxn(w, r, txn)
    ensures CommitShape(w, r, Commits(DeleteObject(w, w.status, r.key, versionId, time, uuid, r.copyId, r.faults)))
  {
    var before := if versionId == "" || versionId == "null" then Promotion(w, r.key, r.copyId, r.faults.promotion) else Part([], true);
    PromotionCommits(w, r.key, r.copyId, r.faults.promotion);
    var first := Commits(before.steps);
    if before.ok && !r.faults.commit {
      var txn := if versionId != "" then DeleteMeta(r.key, versionId)
                 else PutMeta(DeleteMarker(r.key, time, NewVersionId(w.status, uuid)));
      var w1 := ExecAll(w, before.steps);
      var removed := if versionId != "" then StoredRecord(w1.table, r.key, versionId)
                     else if w.status == Suspended then StoredRecord(w1.table, r.key, "null") else None;
      Concat(before.steps, [Commit(txn)], RemoveData(removed));
      MainCommits(txn, removed);
      CommitsConcat(before.steps, [Commit(txn)] + RemoveData(removed));
      Shape(w, r, first, txn);
    } else {
      assert first[..|first|] == first;
      assert ShapeAt(w, r, first, |first|);
    }
  }

  lemma Shape(w: World, r: Request, first: seq<Txn>, txn: Txn)
    requires first == [] || (NeedsPromotion(w.table, RequestKey(r)) && first == PromotionTxns(w, RequestKey(r), CopyId(r)))
    requires MainTxn(w, r, txn)
    requires txn.PutMeta? && txn.info.versionId != "" && NeedsPromotion(w.table, RequestKey(r)) ==> first != []
    requires txn.DeleteMeta? && txn.versionId == "null" && NeedsPromotion(w.table, RequestKey(r)) ==> first != []
    ensures CommitShape(w, r, first + [txn])
  {
    assert (first + [txn])[..|first|] == first;
    assert ShapeAt(w, r, first + [txn], |first|);
  }

  lemma PlanCommits(w: World, r: Request)
    requires Safe(w)
    ensures CommitShape(w, r, Commits(Plan(w, r)))
  {
    match r
    case PutObject(_, _, _, _, _, _, _, _) =>
      PutCommits(w, r);
    case DeleteRequest(key, versionId, time, uuid, copyId, faults) =>
      DeleteCommits(w, r, versionId, time, uuid);
    case ExpireCurrent(key, versionId, modified, time, uuid, copyId, faults) =>
      if ExpiresCurrent(w.table, key, versionId, modified) {
        DeleteCommits(w, r, if w.table[Pointer(key)].isDeleteMarker then versionId else "", time, uuid);
      } else {
        assert ShapeAt(w, r, [], 0);
      }
    case ExpireNoncurrent(key, versionId, now, cutoff, copyId, faults) =>
      if ExpiresNoncurrent(w.table, key, versionId, now, cutoff) {
        assert Pointer(key) in w.table ==> RecordOk(w.table, Pointer(key));
        DeleteCommits(w, r, versionId, now, "");
      } else {
        assert ShapeAt(w, r, [], 0);
      }
    case SetVersioning(requested) =>
      if Plan(w, r) != [] {
        OneCommit(Configure(requested.value));
      }
      assert Commits(Plan(w, r)) == [] && ShapeAt(w, r, [], 0);
  }

  // ------------------------------------------------------- versions are kept

  /** What a reader of a version gets. */
  datatype Content = Content(data: Bytes, attributes: Bytes, modified: int)

  ghost function Read(w: World, key: Bytes, v: Bytes): Option<Content> {
    match Lookup(w.table, key, v)
    case None => None
    case Some(info) =>
      if info.isDeleteMarker || DataPath(info) !in w.disk then None
      else Some(Content(w.disk[DataPath(info)], info.attributes, info.modified))
  }

  /** The same object later: all a reader sees of it, and its data file, if that is a
      blob already. */
  ghost predicate SameObject(later: ObjectInfo, info: ObjectInfo) {
    && later.size == info.size && later.etag == info.etag
    && later.attributes == info.attributes && later.modified == info.modified
    && !later.isDeleteMarker && !info.isDeleteMarker
    && (info.blobId != "" ==> later.blobId == info.blobId)
  }

  /** Every version that holds data is still found under its version ID. */
  ghost predicate Keeps(t: Table, u: Table, but: set<Bytes>) {
    forall k, v :: v != "" && v !in but && Lookup(t, k, v).Some? && !Lookup(t, k, v).value.isDeleteMarker ==>
      Lookup(u, k, v).Some? && SameObject(Lookup(u, k, v).value, Lookup(t, k, v).value)
  }

  lemma KeepsTransitive(t: Table, u: Table, x: Table, but: set<Bytes>)
    requires Keeps(t, u, but) && Keeps(u, x, but)
    ensures Keeps(t, x, but)
  {
  }

  lemma PutKeeps(t: Table, info: ObjectInfo, but: set<Bytes>)
    requires Consistent(t) && info.versionId != "" && !NeedsPromotion(t, info.key)
    requires info.versionId in but || (info.versionId != "null" && Version(info.key, info.versionId) !in t)
    ensures Keeps(t, Put(t, info), but)
  {
    var u := Put(t, info);
    forall k, v | v != "" && v !in but && Lookup(t, k, v).Some? && !Lookup(t, k, v).value.isDeleteMarker
      ensures Lookup(u, k, v).Some? && SameObject(Lookup(u, k, v).value, Lookup(t, k, v).value)
    {
      PutGet(t, info, Version(k, v));
      PutGet(t, info, Pointer(k));
      assert Pointer(k) in t ==> RecordOk(t, Pointer(k));
    }
  }

  /** A promotion gives an object a blob only if it has none. */
  lemma PromotionKeeps(t: Table, info: ObjectInfo)
    requires Consistent(t) && Promotes(t, info)
    requires t[Pointer(info.key)].blobId != "" ==> info.blobId == t[Pointer(info.key)].blobId
    ensures Keeps(t, PutRaw(t, info), {})
  {
    assert RecordOk(t, Pointer(info.key));
  }

  lemma MarkerDeleteKeeps(t: Table, key: Bytes, v: Bytes)
    requires Consistent(t) && v != "" && Pointer(key) in t && t[Pointer(key)].isDeleteMarker && t[Pointer(key)].versionId == v
    ensures Keeps(t, DeleteVersion(t, key, v), {})
  {
    var u := DeleteVersion(t, key, v);
    assert RecordOk(t, Pointer(key));
    forall k, x | x != "" && Lookup(t, k, x).Some? && !Lookup(t, k, x).value.isDeleteMarker
      ensures Lookup(u, k, x).Some? && SameObject(Lookup(u, k, x).value, Lookup(t, k, x).value)
    {
      DeleteVersionGet(t, key, v, Version(k, x));
      DeleteVersionGet(t, key, v, Pointer(k));
      assert Version(k, x) in t ==> RecordOk(t, Version(k, x));
      if k == key {
        assert x != v;
        assert x in VersionIds(t, key) - {v};
      }
    }
  }

  /** Requests that name no version to delete. */
  predicate NamesNoVersion(r: Request) {
    match r
    case DeleteRequest(_, versionId, _, _, _, _) => versionId == ""
    case ExpireNoncurrent(_, _, _, _, _, _) => false
    case _ => true
  }

  ghost function Replaceable(status: Status): set<Bytes> {
    if status == Suspended then {"null"} else {}
  }

  lemma {:induction false} CommitsPrefix(steps: seq<Step>, n: nat) returns (m: nat)
    requires n <= |steps|
    ensures m <= |Commits(steps)| && Commits(steps[..n]) == Commits(steps)[..m]
  {
    m := |Commits(steps[..n])|;
    CommitsConcat(steps[..n], steps[n..]);
    assert steps[..n] + steps[n..] == steps;
  }

  lemma MainKeeps(w: World, t: Table, r: Request, txn: Txn)
    requires Safe(w) && Fresh(w, r) && w.status != Unversioned && NamesNoVersion(r) && MainTxn(w, r, txn)
    requires Consistent(t) && (txn.PutMeta? ==> !NeedsPromotion(t, txn.info.key))
    requires t == w.table || (NeedsPromotion(w.table, RequestKey(r)) && t == PutRaw(w.table, Promoted(w, RequestKey(r), CopyId(r))))
    ensures Keeps(t, Apply(t, txn), Replaceable(w.status))
  {
    match txn
    case PutMeta(info) =>
      assert info.versionId == NewVersionId(w.status, r.uuid);
      PutKeeps(t, info, Replaceable(w.status));
    case PutMetaRaw(_) =>
    case DeleteMeta(key, v) =>
      assert r.ExpireCurrent?;
      assert RecordOk(w.table, Pointer(key));
      assert !NeedsPromotion(w.table, key);
      MarkerDeleteKeeps(t, key, v);
  }

  lemma ApplyOne(t: Table, txns: seq<Txn>)
    requires |txns| == 1
    ensures H.ApplyAll(t, txns) == Apply(t, txns[0])
  {
    assert txns[1..] == [];
  }

  lemma {:induction false} ApplyConcat(t: Table, a: seq<Txn>, b: seq<Txn>)
    ensures H.ApplyAll(t, a + b) == H.ApplyAll(H.ApplyAll(t, a), b)
    decreases |a|
  {
    if a == [] {
      assert a + b == b;
    } else {
      assert (a + b)[1..] == a[1..] + b;
      ApplyConcat(Apply(t, a[0]), a[1..], b);
    }
  }

  lemma PromotionFacts(w: World, r: Request)
    requires Safe(w) && Fresh(w, r) && NeedsPromotion(w.table, RequestKey(r)) && !r.SetVersioning?
    ensures
      var info := Promoted(w, RequestKey(r), CopyId(r));
      var t := PutRaw(w.table, info);
      Promotes(w.table, info) && Consistent(t) && Keeps(w.table, t, {}) && !NeedsPromotion(t, RequestKey(r))
  {
    var info := Promoted(w, RequestKey(r), CopyId(r));
    assert RecordOk(w.table, Pointer(RequestKey(r)));
    PromotionConsistent(w.table, info);
    PromotionKeeps(w.table, info);
  }

  // ------------------------------------------------------------ whole runs

  lemma {:induction false} StatusFollowsConfigure(w: World, steps: seq<Step>)
    ensures w.status != Unversioned && (forall i :: 0 <= i < |steps| ==> steps[i] != Configure(Unversioned)) ==>
              ExecAll(w, steps).status != Unversioned
    ensures (forall i :: 0 <= i < |steps| ==> !steps[i].Configure?) ==> ExecAll(w, steps).status == w.status
    decreases |steps|
  {
    if steps != [] {
      StatusFollowsConfigure(Exec(w, steps[0]), steps[1..]);
    }
  }

  predicate Plain(steps: seq<Step>) {
    forall i :: 0 <= i < |steps| ==> !steps[i].Configure?
  }

  lemma {:induction false} RemovalsPlain(recs: seq<ObjectInfo>)
    ensures Plain(RemoveEach(recs))
    decreases |recs|
  {
    if recs != [] {
      RemovalsPlain(recs[1..]);
    }
  }

  lemma DeletePlain(w: World, seen: Status, key: Bytes, versionId: Bytes, time: int, uuid: Bytes, copyId: Bytes, faults: Faults)
    ensures Plain(DeleteObject(w, seen, key, versionId, time, uuid, copyId, faults))
  {
    RemovalsPlain(KeyVersions(w.table, key));
    assert Plain(Promotion(w, key, copyId, faults.promotion).steps);
  }

  lemma CommitPlain(w: World, info: ObjectInfo, data: Bytes, copyId: Bytes, faults: Faults)
    ensures Plain(CommitObject(w, info, data, copyId, faults))
  {
    RemovalsPlain(KeyVersions(w.table, info.key));
    assert Plain(RemoveEach([]));
    assert Plain(Promotion(w, info.key, copyId, faults.promotion).steps);
  }

  /** Only a versioning request configures, and never back to unversioned. */
  lemma PlanConfigures(w: World, r: Request, i: nat)
    requires i < |Plan(w, r)| && Plan(w, r)[i].Configure?
    ensures r.SetVersioning? && r.requested == Some(Plan(w, r)[i].status) && Plan(w, r)[i].status != Unversioned
  {
    match r
    case PutObject(key, data, attributes, time, uuid, blobId, copyId, faults) =>
      CommitPlain(w, NewObject(w.status, key, data, attributes, time, uuid, blobId), data, copyId, faults);
    case DeleteRequest(key, versionId, time, uuid, copyId, faults) =>
      DeletePlain(w, w.status, key, versionId, time, uuid, copyId, faults);
    case ExpireCurrent(key, versionId, modified, time, uuid, copyId, faults) =>
      DeletePlain(w, w.status, key, versionId, time, uuid, copyId, faults);
      DeletePlain(w, w.status, key, "", time, uuid, copyId, faults);
    case ExpireNoncurrent(key, versionId, now, cutoff, copyId, faults) =>
      DeletePlain(w, w.status, key, versionId, now, "", copyId, faults);
    case SetVersioning(requested) =>
  }

  lemma StatusAfter(w: World, e: Event)
    requires w.status != Unversioned
    ensures After(w, e).status != Unversioned
    ensures After(w, e).status != w.status ==> e.request == SetVersioning(Some(After(w, e).status))
  {
    var steps := Plan(w, e.request);
    var n := if e.crash.Some? && e.crash.value <= |steps| then e.crash.value else |steps|;
    assert steps[..|steps|] == steps;
    forall i | 0 <= i < n && steps[i].Configure?
      ensures e.request.SetVersioning? && e.request.requested == Some(steps[i].status) && steps[i].status != Unversioned
    {
      PlanConfigures(w, e.request, i);
    }
    StatusFollowsConfigure(w, steps[..n]);
    if e.request.SetVersioning? && n == 1 {
      assert steps[..n] == [steps[0]];
      assert ExecAll(w, [steps[0]]) == ExecAll(Exec(w, steps[0]), [steps[0]][1..]);
    }
  }

  /** Once versioned, a bucket is never unversioned again. */
  lemma {:induction false} NeverUnversionedAgain(w: World, events: seq<Event>)
    requires w.status != Unversioned
    ensures Run(w, events).status != Unversioned
    decreases |events|
  {
    if events != [] {
      StatusAfter(w, events[0]);
      NeverUnversionedAgain(After(w, events[0]), events[1..]);
    }
  }

  lemma KeepsMore(t: Table, u: Table, but: set<Bytes>, more: set<Bytes>)
    requires Keeps(t, u, but) && but <= more
    ensures Keeps(t, u, more)
  {
  }
}
