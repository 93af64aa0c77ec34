/** Requests on different keys keep out of each other's way: each reads and changes
    only the records and the files of its own key, so their steps commute. */
module Locality {
  import opened ByteOrder
  import opened Records
  import opened Publication
  import opened CrashSafety
  import MetadataStores
  import H = History

  // ----------------------------------------------------------- records of a key

  ghost predicate Agree(t: Table, u: Table, key: Bytes) {
    forall rk: RecordKey :: rk.key == key ==> Get(t, rk) == Get(u, rk)
  }

  lemma IdsAgree(t: Table, u: Table, key: Bytes)
    requires Agree(t, u, key)
    ensures VersionIds(t, key) == VersionIds(u, key)
    ensures forall v :: v in VersionIds(t, key) ==> t[Version(key, v)] == u[Version(key, v)]
  {
    forall v
      ensures Get(t, Version(key, v)) == Get(u, Version(key, v))
    {
    }
    assert forall v :: v in VersionIds(t, key) <==> v in VersionIds(u, key);
  }

  lemma NewestAgrees(t: Table, u: Table, key: Bytes, except: Bytes)
    requires Agree(t, u, key)
    ensures Newest(t, key, except) == Newest(u, key, except)
  {
    IdsAgree(t, u, key);
    var ids := VersionIds(t, key) - {except};
    if ids != {} {
      assert IsNewest(u, key, ids, Newest(t, key, except).value);
      NewestUnique(u, key, ids, Newest(t, key, except).value, Newest(u, key, except).value);
    }
  }

  lemma {:induction false} InOrderAgrees(t: Table, u: Table, key: Bytes, ids: set<Bytes>)
    requires Agree(t, u, key) && forall v :: v in ids ==> Version(key, v) in t && Version(key, v) in u
    ensures InOrder(t, key, ids) == InOrder(u, key, ids)
    decreases |ids|
  {
    if ids != {} {
      var v := First(ids);
      assert Get(t, Version(key, v)) == Get(u, Version(key, v));
      InOrderAgrees(t, u, key, ids - {v});
    }
  }

  lemma KeyVersionsAgree(t: Table, u: Table, key: Bytes)
    requires Agree(t, u, key)
    ensures KeyVersions(t, key) == KeyVersions(u, key)
  {
    assert Get(t, Pointer(key)) == Get(u, Pointer(key));
    IdsAgree(t, u, key);
    if Pointer(key) in t {
      InOrderAgrees(t, u, key, VersionIds(t, key) - {t[Pointer(key)].versionId});
    }
  }

  /** What a transaction does to its key depends on the records of that key. */
  lemma ApplyAgrees(t: Table, u: Table, txn: Txn)
    requires Agree(t, u, H.TxnKey(txn))
    ensures Agree(Apply(t, txn), Apply(u, txn), H.TxnKey(txn))
  {
    var key := H.TxnKey(txn);
    assert Get(t, Pointer(key)) == Get(u, Pointer(key));
    forall rk: RecordKey | rk.key == key
      ensures Get(Apply(t, txn), rk) == Get(Apply(u, txn), rk)
    {
      match txn
      case PutMeta(info) =>
        PutGet(t, info, rk);
        PutGet(u, info, rk);
      case PutMetaRaw(info) =>
        assert Get(t, rk) == Get(u, rk);
      case DeleteMeta(_, v) =>
        if v != "" {
          DeleteVersionGet(t, key, v, rk);
          DeleteVersionGet(u, key, v, rk);
          NewestAgrees(t, u, key, v);
          IdsAgree(t, u, key);
        }
    }
  }

  lemma TxnsCommute(t: Table, a: Txn, b: Txn)
    requires H.TxnKey(a) != H.TxnKey(b)
    ensures Apply(Apply(t, a), b) == Apply(Apply(t, b), a)
  {
    var ab, ba := Apply(Apply(t, a), b), Apply(Apply(t, b), a);
    forall rk
      ensures Get(ab, rk) == Get(ba, rk)
    {
      if rk.key != H.TxnKey(b) {
        CommuteAt(t, a, b, rk);
      } else {
        CommuteAt(t, b, a, rk);
      }
    }
    MetadataStores.SameTable(ab, ba);
  }

  lemma CommuteAt(t: Table, a: Txn, b: Txn, rk: RecordKey)
    requires H.TxnKey(a) != H.TxnKey(b) && rk.key != H.TxnKey(b)
    ensures Get(Apply(Apply(t, a), b), rk) == Get(Apply(Apply(t, b), a), rk)
  {
    H.OtherKeys(Apply(t, a), b, rk.key);
    if rk.key == H.TxnKey(a) {
      H.OtherKeys(t, b, rk.key);
      ApplyAgrees(t, Apply(t, b), a);
    } else {
      H.OtherKeys(t, a, rk.key);
      H.OtherKeys(t, b, rk.key);
      H.OtherKeys(Apply(t, b), a, rk.key);
    }
  }

  // ------------------------------------------------------------- files of a key

  /** The key of the request that drew each blob ID. */
  type Owners = map<Bytes, Bytes>

  predicate Owns(owners: Owners, key: Bytes, path: Path) {
    match path
    case Blob(id) => id in owners && owners[id] == key
    case Legacy(k) => k == key
  }

  ghost predicate TableOwned(owners: Owners, t: Table) {
    forall rk :: rk in t ==> t[rk].key == rk.key && Owns(owners, rk.key, DataPath(t[rk]))
  }

  predicate TxnOf(owners: Owners, key: Bytes, txn: Txn) {
    match txn
    case PutMeta(info) => info.key == key && Owns(owners, key, DataPath(info))
    case PutMetaRaw(info) => info.key == key && Owns(owners, key, DataPath(info))
    case DeleteMeta(k, _) => k == key
  }

  /** A step that touches nothing but the records and files of the key. */
  predicate StepOf(owners: Owners, key: Bytes, step: Step) {
    match step
    case Publish(path, _) => Owns(owners, key, path)
    case Commit(txn) => TxnOf(owners, key, txn)
    case Remove(path) => Owns(owners, key, path)
    case Configure(_) => false
  }

  predicate StepsOf(owners: Owners, key: Bytes, steps: seq<Step>) {
    forall i :: 0 <= i < |steps| ==> StepOf(owners, key, steps[i])
  }

  lemma ApplyOwned(owners: Owners, t: Table, key: Bytes, txn: Txn)
    requires TableOwned(owners, t) && TxnOf(owners, key, txn)
    ensures TableOwned(owners, Apply(t, txn))
  {
    var u := Apply(t, txn);
    forall rk | rk in u
      ensures u[rk].key == rk.key && Owns(owners, rk.key, DataPath(u[rk]))
    {
      match txn
      case PutMeta(info) => PutGet(t, info, rk);
      case PutMetaRaw(info) =>
      case DeleteMeta(_, v) =>
        if v != "" {
          DeleteVersionGet(t, key, v, rk);
        }
    }
  }

  lemma {:induction false} ExecOwned(owners: Owners, w: World, key: Bytes, steps: seq<Step>)
    requires TableOwned(owners, w.table) && StepsOf(owners, key, steps)
    ensures TableOwned(owners, ExecAll(w, steps).table)
    ensures ExecAll(w, steps).status == w.status
    decreases |steps|
  {
    if steps != [] {
      assert StepOf(owners, key, steps[0]);
      if steps[0].Commit? {
        ApplyOwned(owners, w.table, key, steps[0].txn);
      }
      ExecOwned(owners, Exec(w, steps[0]), key, steps[1..]);
    }
  }

  lemma TwoCommute(owners: Owners, w: World, k: Bytes, a: Step, j: Bytes, b: Step)
    requires k != j && StepOf(owners, k, a) && StepOf(owners, j, b)
    ensures Exec(Exec(w, a), b) == Exec(Exec(w, b), a)
  {
    if a.Commit? && b.Commit? {
      TxnsCommute(w.table, a.txn, b.txn);
    } else if !a.Commit? && !b.Commit? {
      assert a.path != b.path;
      assert Exec(Exec(w, a), b).disk == Exec(Exec(w, b), a).disk;
    }
  }

  /** A step of one key and the steps of another, in either order. */
  lemma {:induction false} StepsCommute(owners: Owners, w: World, k: Bytes, a: Step, j: Bytes, steps: seq<Step>)
    requires k != j && StepOf(owners, k, a) && StepsOf(owners, j, steps)
    ensures ExecAll(Exec(w, a), steps) == Exec(ExecAll(w, steps), a)
    decreases |steps|
  {
    if steps != [] {
      assert StepOf(owners, j, steps[0]);
      TwoCommute(owners, w, k, a, j, steps[0]);
      StepsCommute(owners, Exec(w, steps[0]), k, a, j, steps[1..]);
    }
  }

  lemma StepAgrees(owners: Owners, w: World, j: Bytes, step: Step, key: Bytes)
    requires StepOf(owners, j, step) && j != key
    ensures Agree(w.table, Exec(w, step).table, key)
    ensures Legacy(key) in w.disk <==> Legacy(key) in Exec(w, step).disk
    ensures Legacy(key) in w.disk ==> w.disk[Legacy(key)] == Exec(w, step).disk[Legacy(key)]
    ensures Exec(w, step).status == w.status
  {
    if step.Commit? {
      H.OtherKeys(w.table, step.txn, key);
    }
  }

  lemma {:induction false} StepsAgree(owners: Owners, w: World, j: Bytes, steps: seq<Step>, key: Bytes)
    requires StepsOf(owners, j, steps) && j != key
    ensures Agree(w.table, ExecAll(w, steps).table, key)
    decreases |steps|
  {
    if steps != [] {
      assert StepOf(owners, j, steps[0]);
      StepAgrees(owners, w, j, steps[0], key);
      StepsAgree(owners, Exec(w, steps[0]), j, steps[1..], key);
    }
  }

  // -------------------------------------------------------------- plans of a key

  /** Two states that look the same to requests on the key. */
  ghost predicate Alike(w: World, x: World, key: Bytes) {
    && w.status == x.status
    && Agree(w.table, x.table, key)
    && (Legacy(key) in w.disk <==> Legacy(key) in x.disk)
    && (Legacy(key) in w.disk ==> w.disk[Legacy(key)] == x.disk[Legacy(key)])
  }

  lemma {:induction false} ExecAgrees(w: World, x: World, steps: seq<Step>, key: Bytes)
    requires Agree(w.table, x.table, key)
    requires forall i :: 0 <= i < |steps| && steps[i].Commit? ==> H.TxnKey(steps[i].txn) == key
    ensures Agree(ExecAll(w, steps).table, ExecAll(x, steps).table, key)
    decreases |steps|
  {
    if steps != [] {
      if steps[0].Commit? {
        ApplyAgrees(w.table, x.table, steps[0].txn);
      }
      ExecAgrees(Exec(w, steps[0]), Exec(x, steps[0]), steps[1..], key);
    }
  }

  lemma PromotionAlike(w: World, x: World, key: Bytes, copyId: Bytes, fails: bool)
    requires Alike(w, x, key) && (Pointer(key) in w.table ==> w.table[Pointer(key)].key == key)
    ensures Promotion(w, key, copyId, fails) == Promotion(x, key, copyId, fails)
    ensures
      var steps := Promotion(w, key, copyId, fails).steps;
      Agree(ExecAll(w, steps).table, ExecAll(x, steps).table, key)
  {
    assert Get(w.table, Pointer(key)) == Get(x.table, Pointer(key));
    ExecAgrees(w, x, Promotion(w, key, copyId, fails).steps, key);
  }

  lemma StoredAgrees(t: Table, u: Table, key: Bytes, v: Bytes)
    requires Agree(t, u, key)
    ensures Lookup(t, key, v) == Lookup(u, key, v) && StoredRecord(t, key, v) == StoredRecord(u, key, v)
  {
    assert Get(t, Pointer(key)) == Get(u, Pointer(key)) && Get(t, Version(key, v)) == Get(u, Version(key, v));
  }

  lemma CommitAlike(w: World, x: World, info: ObjectInfo, data: Bytes, copyId: Bytes, faults: Faults)
    requires Alike(w, x, info.key) && (Pointer(info.key) in w.table ==> w.table[Pointer(info.key)].key == info.key)
    ensures CommitObject(w, info, data, copyId, faults) == CommitObject(x, info, data, copyId, faults)
  {
    var key := info.key;
    KeyVersionsAgree(w.table, x.table, key);
    PromotionAlike(w, x, key, copyId, faults.promotion);
    var before := if info.versionId == "" then Part([], true) else Promotion(w, key, copyId, faults.promotion);
    StoredAgrees(ExecAll(w, before.steps).table, ExecAll(x, before.steps).table, key, info.versionId);
  }

  lemma DeleteAlike(w: World, x: World, seen: Status, key: Bytes, v: Bytes, time: int, uuid: Bytes, copyId: Bytes, faults: Faults)
    requires Alike(w, x, key) && (Pointer(key) in w.table ==> w.table[Pointer(key)].key == key)
    ensures DeleteObject(w, seen, key, v, time, uuid, copyId, faults) == DeleteObject(x, seen, key, v, time, uuid, copyId, faults)
  {
    assert Get(w.table, Pointer(key)) == Get(x.table, Pointer(key));
    KeyVersionsAgree(w.table, x.table, key);
    PromotionAlike(w, x, key, copyId, faults.promotion);
    var promoted := Promotion(w, key, copyId, faults.promotion).steps;
    StoredAgrees(ExecAll(w, promoted).table, ExecAll(x, promoted).table, key, "null");
    StoredAgrees(ExecAll(w, []).table, ExecAll(x, []).table, key, v);
  }

  lemma PlanAlike(w: World, x: World, owners: Owners, r: Request)
    requires !r.SetVersioning? && Alike(w, x, r.key) && TableOwned(owners, w.table)
    ensures Plan(w, r) == Plan(x, r)
  {
    assert Get(w.table, Pointer(r.key)) == Get(x.table, Pointer(r.key));
    KeyVersionsAgree(w.table, x.table, r.key);
    match r
    case PutObject(key, data, attributes, time, uuid, blobId, copyId, faults) =>
      CommitAlike(w, x, NewObject(w.status, key, data, attributes, time, uuid, blobId), data, copyId, faults);
    case DeleteRequest(key, v, time, uuid, copyId, faults) =>
      DeleteAlike(w, x, w.status, key, v, time, uuid, copyId, faults);
    case ExpireCurrent(key, v, modified, time, uuid, copyId, faults) =>
      DeleteAlike(w, x, w.status, key, v, time, uuid, copyId, faults);
      DeleteAlike(w, x, w.status, key, "", time, uuid, copyId, faults);
    case ExpireNoncurrent(key, v, now, cutoff, copyId, faults) =>
      StoredAgrees(w.table, x.table, key, v);
      assert Version(key, v) in w.table ==> w.table[Version(key, v)].key == key;
      DeleteAlike(w, x, w.status, key, v, now, "", copyId, faults);
  }

  function BlobIds(r: Request): set<Bytes> {
    match r
    case PutObject(_, _, _, _, _, blobId, copyId, _) => {blobId, copyId}
    case SetVersioning(_) => {}
    case _ => {r.copyId}
  }

  /** The blob IDs a request drew are recorded as its key's. */
  ghost predicate Drawn(owners: Owners, r: Request) {
    !r.SetVersioning? ==> forall id :: id in BlobIds(r) ==> id != "" && Owns(owners, r.key, Blob(id))
  }

  lemma {:induction false} RemovalsOf(owners: Owners, key: Bytes, recs: seq<ObjectInfo>)
    requires forall info :: info in recs ==> Owns(owners, key, DataPath(info))
    ensures StepsOf(owners, key, RemoveEach(recs))
    decreases |recs|
  {
    if recs != [] {
      assert recs[0] in recs;
      RemovalsOf(owners, key, recs[1..]);
    }
  }

  lemma StoredOf(owners: Owners, t: Table, key: Bytes, v: Bytes)
    requires TableOwned(owners, t)
    ensures StepsOf(owners, key, RemoveData(StoredRecord(t, key, v)))
    ensures StepsOf(owners, key, RemoveEach(KeyVersions(t, key)))
  {
    RemovalsOf(owners, key, KeyVersions(t, key));
  }

  lemma PromotionOf(owners: Owners, w: World, key: Bytes, copyId: Bytes, fails: bool)
    requires TableOwned(owners, w.table) && copyId != "" && Owns(owners, key, Blob(copyId))
    ensures
      var steps := Promotion(w, key, copyId, fails).steps;
      StepsOf(owners, key, steps) && TableOwned(owners, ExecAll(w, steps).table)
  {
    ExecOwned(owners, w, key, Promotion(w, key, copyId, fails).steps);
  }

  lemma ConcatOf(owners: Owners, key: Bytes, a: seq<Step>, b: seq<Step>)
    requires StepsOf(owners, key, a) && StepsOf(owners, key, b)
    ensures StepsOf(owners, key, a + b)
  {
  }

  /** A part, a transaction, then removals. */
  lemma ThenCommit(owners: Owners, key: Bytes, before: seq<Step>, txn: Txn, removals: seq<Step>)
    requires StepsOf(owners, key, before) && TxnOf(owners, key, txn) && StepsOf(owners, key, removals)
    ensures StepsOf(owners, key, before + [Commit(txn)] + removals)
  {
    ConcatOf(owners, key, before, [Commit(txn)]);
    ConcatOf(owners, key, before + [Commit(txn)], removals);
  }

  lemma PublishOf(owners: Owners, info: ObjectInfo, data: Bytes, faults: Faults, replaced: Option<ObjectInfo>, obsolete: seq<ObjectInfo>)
    requires info.blobId != "" && Owns(owners, info.key, Blob(info.blobId))
    requires StepsOf(owners, info.key, RemoveData(replaced)) && StepsOf(owners, info.key, RemoveEach(obsolete))
    ensures StepsOf(owners, info.key, PublishSteps(info, data, faults, replaced, obsolete))
  {
    var finish := [] + [Commit(PutMeta(info))] + RemoveData(replaced);
    ThenCommit(owners, info.key, [], PutMeta(info), RemoveData(replaced));
    ConcatOf(owners, info.key, finish, RemoveEach(obsolete));
    assert finish == [Commit(PutMeta(info))] + RemoveData(replaced);
    ConcatOf(owners, info.key, [Step.Publish(Blob(info.blobId), data)], finish + RemoveEach(obsolete));
  }

  lemma CommitOf(owners: Owners, w: World, info: ObjectInfo, data: Bytes, copyId: Bytes, faults: Faults)
    requires TableOwned(owners, w.table) && info.blobId != "" && Owns(owners, info.key, Blob(info.blobId))
    requires copyId != "" && Owns(owners, info.key, Blob(copyId))
    ensures StepsOf(owners, info.key, CommitObject(w, info, data, copyId, faults))
  {
    var key := info.key;
    var obsolete := if info.versionId == "" then KeyVersions(w.table, key) else [];
    var before := if info.versionId == "" then Part([], true) else Promotion(w, key, copyId, faults.promotion);
    PromotionOf(owners, w, key, copyId, faults.promotion);
    if before.ok {
      var w1 := ExecAll(w, before.steps);
      var replaced := if info.versionId == "" || info.versionId == "null"
                      then StoredRecord(w1.table, key, info.versionId) else None;
      StoredOf(owners, w.table, key, "");
      StoredOf(owners, w1.table, key, info.versionId);
      PublishOf(owners, info, data, faults, replaced, obsolete);
      ConcatOf(owners, key, before.steps, PublishSteps(info, data, faults, replaced, obsolete));
    }
  }

  lemma DeleteOf(owners: Owners, w: World, seen: Status, key: Bytes, v: Bytes, time: int, uuid: Bytes, copyId: Bytes, faults: Faults)
    requires TableOwned(owners, w.table) && copyId != "" && Owns(owners, key, Blob(copyId))
    ensures StepsOf(owners, key, DeleteObject(w, seen, key, v, time, uuid, copyId, faults))
  {
    PromotionOf(owners, w, key, copyId, faults.promotion);
    if v == "" && seen == Unversioned {
      StoredOf(owners, w.table, key, "");
    } else {
      var before := if v == "" || v == "null" then Promotion(w, key, copyId, faults.promotion) else Part([], true);
      var txn := if v != "" then DeleteMeta(key, v) else PutMeta(DeleteMarker(key, time, NewVersionId(seen, uuid)));
      var gone := if v != "" then v else "null";
      var w1 := ExecAll(w, before.steps);
      StoredOf(owners, w1.table, key, gone);
      var removed := if v == "" && seen == Enabled then None else StoredRecord(w1.table, key, gone);
      ThenCommit(owners, key, before.steps, txn, RemoveData(removed));
    }
  }

  /** A request touches nothing but the records and files of its key. */
  lemma PlanOf(owners: Owners, w: World, r: Request)
    requires !r.SetVersioning? && TableOwned(owners, w.table) && Drawn(owners, r)
    ensures StepsOf(owners, r.key, Plan(w, r))
  {
    assert r.copyId in BlobIds(r);
    match r
    case PutObject(key, data, attributes, time, uuid, blobId, copyId, faults) =>
      assert blobId in BlobIds(r);
      CommitOf(owners, w, NewObject(w.status, key, data, attributes, time, uuid, blobId), data, copyId, faults);
    case DeleteRequest(key, v, time, uuid, copyId, faults) =>
      DeleteOf(owners, w, w.status, key, v, time, uuid, copyId, faults);
    case ExpireCurrent(key, v, modified, time, uuid, copyId, faults) =>
      DeleteOf(owners, w, w.status, key, v, time, uuid, copyId, faults);
      DeleteOf(owners, w, w.status, key, "", time, uuid, copyId, faults);
    case ExpireNoncurrent(key, v, now, cutoff, copyId, faults) =>
      DeleteOf(owners, w, w.status, key, v, now, "", copyId, faults);
  }

  /** A step of another key changes neither what a request does nor what it needs. */
  lemma PlanUnmoved(owners: Owners, w: World, k: Bytes, a: Step, r: Request)
    requires TableOwned(owners, w.table) && StepOf(owners, k, a) && Drawn(owners, r)
    requires !r.SetVersioning? && r.key != k
    ensures Plan(Exec(w, a), r) == Plan(w, r)
    ensures Fresh(w, r) ==> Fresh(Exec(w, a), r)
  {
    StepAgrees(owners, w, k, a, r.key);
    PlanAlike(w, Exec(w, a), owners, r);
    if Fresh(w, r) {
      forall id | id in BlobIds(r)
        ensures FreshBlob(Exec(w, a), id)
      {
        BlobUnmoved(owners, w, k, a, r.key, id);
      }
      assert r.copyId in BlobIds(r) && (r.PutObject? ==> r.blobId in BlobIds(r));
      assert !r.ExpireNoncurrent? ==> Get(w.table, Version(r.key, r.uuid)) == Get(Exec(w, a).table, Version(r.key, r.uuid));
    }
  }

  lemma BlobUnmoved(owners: Owners, w: World, k: Bytes, a: Step, j: Bytes, id: Bytes)
    requires TableOwned(owners, w.table) && StepOf(owners, k, a) && j != k
    requires Owns(owners, j, Blob(id)) && FreshBlob(w, id)
    ensures FreshBlob(Exec(w, a), id)
  {
    var x := Exec(w, a);
    if a.Commit? {
      ApplyOwned(owners, w.table, k, a.txn);
      H.OtherKeys(w.table, a.txn, j);
      forall rk | rk in x.table && HoldsData(x.table, rk)
        ensures DataPath(x.table[rk]) != Blob(id)
      {
        if rk.key == j {
          assert Get(x.table, rk) == Get(w.table, rk);
          assert DataPath(w.table[rk]) in Referenced(w.table);
        }
      }
    }
  }
}
