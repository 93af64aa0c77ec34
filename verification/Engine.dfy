/** The engine's operations on one bucket as they run: each durable step is taken
    in turn and recorded in a trail, so that the states a crash can leave behind
    are those of the trail's prefixes. */
module Engine {
  import opened ByteOrder
  import opened Records
  import opened MetadataStores
  import opened Publication
  import opened CrashSafety
  import opened Effects

  datatype Error = InvalidArgument | IllegalVersioningConfiguration | StorageFailure

  class FilesystemEngine {
    const meta: MetadataStore
    var status: Status
    var disk: Disk
    ghost var trail: seq<Step>

    constructor (meta: MetadataStore, status: Status, disk: Disk)
      requires meta.Valid()
      ensures this.meta == meta && this.status == status && this.disk == disk && trail == []
    {
      this.meta, this.status, this.disk, trail := meta, status, disk, [];
    }

    ghost function State(): World
      reads this, meta
    {
      World(status, meta.objects, disk)
    }

    /** The operation took exactly the steps of `plan`, in their order. */
    twostate predicate Performed(plan: seq<Step>)
      reads this, meta
    {
      && meta.Valid()
      && trail == old(trail) + plan
      && State() == ExecAll(old(State()), plan)
    }

    // ------------------------------------------------------------ small pieces

    method GetStoredRecord(key: Bytes, versionId: Bytes) returns (rec: Option<ObjectInfo>)
      ensures rec == StoredRecord(meta.objects, key, versionId)
    {
      rec := meta.GetObjectMeta(key, versionId);
      if rec.Some? && (rec.value.isDeleteMarker || rec.value.versionId != versionId) {
        rec := None;
      }
    }

    method RemoveRecordData(rec: Option<ObjectInfo>)
      requires meta.Valid()
      modifies this`disk, this`trail
      ensures Performed(RemoveData(rec))
    {
      if rec.None? || rec.value.isDeleteMarker {
        assert trail == trail + [];
        return;
      }
      OneExec(State(), Remove(DataPath(rec.value)));
      disk := disk - {DataPath(rec.value)};
      trail := trail + [Remove(DataPath(rec.value))];
    }

    method RemoveAllData(recs: seq<ObjectInfo>)
      requires meta.Valid()
      modifies this`disk, this`trail
      ensures Performed(RemoveEach(recs))
    {
      var i := 0;
      ghost var w0, trail0 := State(), trail;
      while i < |recs|
        invariant 0 <= i <= |recs|
        invariant trail == trail0 + RemoveEach(recs[..i])
        invariant State() == ExecAll(w0, RemoveEach(recs[..i]))
      {
        RemoveRecordData(Some(recs[i]));
        RemoveEachSnoc(recs[..i], recs[i]);
        assert recs[..i + 1] == recs[..i] + [recs[i]];
        ExecConcat(w0, RemoveEach(recs[..i]), RemoveData(Some(recs[i])));
        i := i + 1;
      }
      assert recs[..i] == recs;
    }

    /** Re-records an object stored before versioning as version "null". */
    method PromoteLegacyNullVersion(key: Bytes, copyId: Bytes, fails: bool) returns (ok: bool)
      requires meta.Valid() && copyId != ""
      modifies this`disk, this`trail, meta`objects, meta`objectCount
      ensures Performed(Promotion(old(State()), key, copyId, fails).steps)
      ensures ok == Promotion(old(State()), key, copyId, fails).ok
      ensures meta.journal == old(meta.journal)
    {
      ghost var w0, trail0 := State(), trail;
      var found := meta.GetObjectMeta(key, "");
      if found.None? || found.value.versionId != "" || found.value.isDeleteMarker {
        assert trail == trail + [];
        return true;
      }
      var latest := found.value.(versionId := "null", isLatest := true);
      assert RecordOk(meta.objects, Pointer(key));
      if latest.blobId != "" {
        if fails {
          assert trail == trail + [];
          return false;
        }
        OneExec(State(), Commit(PutMetaRaw(latest)));
        meta.PutObjectMetaRaw(latest);
        trail := trail + [Commit(PutMetaRaw(latest))];
        return true;
      }

      if Legacy(key) !in disk {
        assert trail == trail + [];
        return false;
      }
      ghost var copy := Step.Publish(Blob(copyId), disk[Legacy(key)]);
      OneExec(State(), copy);
      disk := disk[Blob(copyId) := disk[Legacy(key)]];
      trail := trail + [copy];
      latest := latest.(blobId := copyId);
      if fails {
        ExecSnoc(w0, [copy], Remove(Blob(copyId)));
        disk := disk - {Blob(copyId)};
        trail := trail + [Remove(Blob(copyId))];
        assert [copy] + [Remove(Blob(copyId))] == [copy, Remove(Blob(copyId))];
        return false;
      }
      ExecSnoc(w0, [copy], Commit(PutMetaRaw(latest)));
      meta.PutObjectMetaRaw(latest);
      trail := trail + [Commit(PutMetaRaw(latest))];
      ExecSnoc(w0, [copy] + [Commit(PutMetaRaw(latest))], Remove(Legacy(key)));
      disk := disk - {Legacy(key)};
      trail := trail + [Remove(Legacy(key))];
      assert [copy] + [Commit(PutMetaRaw(latest))] + [Remove(Legacy(key))] ==
             [copy, Commit(PutMetaRaw(latest)), Remove(Legacy(key))];
      return true;
    }

    /** Reconciles what is stored under a key with the version about to be written
        and finds the record that version replaces. */
    method PrepareKeyForWrite(key: Bytes, versionId: Bytes, copyId: Bytes, fails: bool)
      returns (ok: bool, replaced: Option<ObjectInfo>)
      requires meta.Valid() && copyId != ""
      modifies this`disk, this`trail, meta`objects, meta`objectCount
      ensures
        var before := Prepared(old(State()), key, versionId, copyId, fails);
        && Performed(before.steps)
        && ok == before.ok
        && (ok ==> replaced == if versionId == "" || versionId == "null"
                               then StoredRecord(meta.objects, key, versionId) else None)
      ensures meta.journal == old(meta.journal)
    {
      replaced := None;
      if versionId == "" {
        replaced := GetStoredRecord(key, "");
        assert trail == trail + [];
        return true, replaced;
      }
      ok := PromoteLegacyNullVersion(key, copyId, fails);
      if ok && versionId == "null" {
        replaced := GetStoredRecord(key, "null");
      }
    }

    // --------------------------------------------------------------- operations

    /** An unversioned write drops every version of its key. */
    method VersionsToDrop(info: ObjectInfo) returns (obsolete: seq<ObjectInfo>)
      requires meta.Valid()
      ensures obsolete == if info.versionId == "" then KeyVersions(meta.objects, info.key) else []
    {
      obsolete := [];
      if info.versionId == "" {
        obsolete := meta.GetObjectVersions(info.key);
      }
    }

    /** Publishes fully written data as a new version and records its metadata. */
    method CommitNewObject(data: Bytes, info: ObjectInfo, copyId: Bytes, faults: Faults) returns (ok: bool)
      requires meta.Valid() && info.blobId != "" && !info.isDeleteMarker && copyId != ""
      modifies this`disk, this`trail, meta
      ensures Performed(CommitObject(old(State()), info, data, copyId, faults))
      ensures ok <==> Prepared(old(State()), info.key, info.versionId, copyId, faults.promotion).ok && faults.publish.Done? && !faults.commit
    {
      ghost var w0 := State();
      var obsolete := VersionsToDrop(info);
      var replaced;
      ok, replaced := PrepareKeyForWrite(info.key, info.versionId, copyId, faults.promotion);
      PlanOfCommit(w0, info, data, copyId, faults, obsolete, replaced);
      if !ok {
        return false;
      }
      Concat(old(trail), Prepared(w0, info.key, info.versionId, copyId, faults.promotion).steps,
             PublishSteps(info, data, faults, replaced, obsolete));
      ok := Publish(data, info, replaced, obsolete, faults);
    }

    /** Renames the data into place, commits its record, and only then removes the
        files of the records it replaces. */
    method Publish(data: Bytes, info: ObjectInfo, replaced: Option<ObjectInfo>, obsolete: seq<ObjectInfo>, faults: Faults)
      returns (ok: bool)
      requires meta.Valid() && info.blobId != "" && !info.isDeleteMarker
      modifies this`disk, this`trail, meta
      ensures Performed(PublishSteps(info, data, faults, replaced, obsolete))
      ensures ok <==> faults.publish.Done? && !faults.commit
    {
      ghost var w0 := State();
      if faults.publish.NotRenamed? {
        assert trail == trail + [];
        return false;
      }
      ghost var publish := Step.Publish(Blob(info.blobId), data);
      OneExec(w0, publish);
      disk := disk[Blob(info.blobId) := data];
      trail := trail + [publish];
      if faults.publish.NotSynced? {
        return false;
      }
      if faults.commit {
        ExecSnoc(w0, [publish], Remove(Blob(info.blobId)));
        disk := disk - {Blob(info.blobId)};
        trail := trail + [Remove(Blob(info.blobId))];
        return false;
      }
      ghost var finish := [Commit(PutMeta(info))] + RemoveData(replaced) + RemoveEach(obsolete);
      ExecConcat(w0, [publish], finish);
      Concat(old(trail), [publish], finish);
      CommitReplacingAll(info, replaced, obsolete);
      return true;
    }

    method CommitReplacingAll(info: ObjectInfo, replaced: Option<ObjectInfo>, obsolete: seq<ObjectInfo>)
      requires meta.Valid() && Storable(info)
      modifies this`disk, this`trail, meta
      ensures Performed([Commit(PutMeta(info))] + RemoveData(replaced) + RemoveEach(obsolete))
    {
      ExecConcat(State(), [Commit(PutMeta(info))] + RemoveData(replaced), RemoveEach(obsolete));
      Concat(trail, [Commit(PutMeta(info))] + RemoveData(replaced), RemoveEach(obsolete));
      CommitReplacing(info, replaced);
      RemoveAllData(obsolete);
    }

    method CommitReplacing(info: ObjectInfo, replaced: Option<ObjectInfo>)
      requires meta.Valid() && Storable(info)
      modifies this`disk, this`trail, meta
      ensures Performed([Commit(PutMeta(info))] + RemoveData(replaced))
    {
      OneExec(State(), Commit(PutMeta(info)));
      ExecConcat(State(), [Commit(PutMeta(info))], RemoveData(replaced));
      Concat(trail, [Commit(PutMeta(info))], RemoveData(replaced));
      meta.PutObjectMeta(info);
      trail := trail + [Commit(PutMeta(info))];
      RemoveRecordData(replaced);
    }

    /** The commit of an upload whose data has been written to a temporary file. It
        answers whether a read of the key finds this upload from now on; if not, every
        read is answered as before. */
    method PutObject(key: Bytes, data: Bytes, attributes: Bytes, time: int, uuid: Bytes, blobId: Bytes, copyId: Bytes, faults: Faults)
      returns (ok: bool)
      requires meta.Valid() && blobId != "" && copyId != ""
      modifies this`disk, this`trail, meta
      ensures Performed(Plan(old(State()), Request.PutObject(key, data, attributes, time, uuid, blobId, copyId, faults)))
      ensures
        Safe(old(State())) && Fresh(old(State()), Request.PutObject(key, data, attributes, time, uuid, blobId, copyId, faults)) ==>
          var newId := if old(status) == Unversioned then "" else if old(status) == Enabled then uuid else "null";
          && (ok <==> CurrentIs(State(), key, newId, data, attributes, time, blobId))
          && (ok <==> NothingFails(old(State()), key, faults))
          && (ok ==> PutDone(old(State()), State(), key, newId, data, attributes, time, blobId))
          && (!ok ==> SameReads(old(State()), State()))
    {
      ghost var w0 := State();
      ghost var r := Request.PutObject(key, data, attributes, time, uuid, blobId, copyId, faults);
      var versionId := "";
      if status == Enabled {
        versionId := uuid;
      } else if status == Suspended {
        versionId := "null";
      }
      var info := ObjectInfo(key, |data|, Digest(data), attributes, time, versionId, false, None, false, blobId);
      ok := CommitNewObject(data, info, copyId, faults);
      PutAnswers(w0, r, ok);
    }

    /** Removes a version, or hides or removes the whole object, depending on the
        status of versioning it read, which a configuration of the bucket may have
        overtaken by now. Metadata always goes before the data it names. */
    method DeleteObjectLocked(seen: Status, key: Bytes, versionId: Bytes, time: int, uuid: Bytes, copyId: Bytes, faults: Faults)
      returns (ok: bool)
      requires meta.Valid() && copyId != "" && (versionId == "" && seen == Enabled ==> uuid != "")
      modifies this`disk, this`trail, meta
      ensures Performed(DeleteObject(old(State()), seen, key, versionId, time, uuid, copyId, faults))
      ensures
        Safe(old(State())) && FreshBlob(old(State()), copyId) && (versionId == "" && seen == Enabled ==> FreshVersion(old(meta.objects), key, uuid)) ==>
          && (ok <==> !Hindered(old(meta.objects), seen, key, versionId, faults))
          && (ok ==> Deleted(old(State()), State(), seen, key, versionId, time, uuid))
          && (!ok ==> SameReads(old(State()), State()))
    {
      if versionId != "" {
        ok := DeleteVersionLocked(seen, key, versionId, copyId, faults);
      } else if seen == Enabled || seen == Suspended {
        ok := InsertDeleteMarker(seen, key, time, uuid, copyId, faults);
      } else {
        ok := DeleteWholeKey(key, faults.commit);
      }
    }

    method DeleteWholeKey(key: Bytes, fails: bool) returns (ok: bool)
      requires meta.Valid()
      modifies this`disk, this`trail, meta
      ensures Performed(if Pointer(key) !in old(meta.objects) || fails then []
                        else [Commit(DeleteMeta(key, ""))] + RemoveEach(KeyVersions(old(meta.objects), key)))
      ensures ok <==> !(fails && Lookup(old(meta.objects), key, "").Some?)
      ensures Safe(old(State())) ==>
                if ok then KeyGone(old(State()), State(), key) else SameReads(old(State()), State())
    {
      ghost var w0 := State();
      if Safe(w0) {
        WholeKeyEffect(w0, key, fails);
      }
      var found := meta.GetObjectMeta(key, "");
      if found.None? || fails {
        assert trail == trail + [];
        return found.None?;
      }
      var versions := meta.GetObjectVersions(key);
      ExecConcat(State(), [Commit(DeleteMeta(key, ""))], RemoveEach(versions));
      Concat(trail, [Commit(DeleteMeta(key, ""))], RemoveEach(versions));
      CommitDelete(key, "");
      RemoveAllData(versions);
      return true;
    }

    method CommitDelete(key: Bytes, versionId: Bytes)
      requires meta.Valid()
      modifies this`trail, meta
      ensures Performed([Commit(DeleteMeta(key, versionId))])
    {
      OneExec(State(), Commit(DeleteMeta(key, versionId)));
      meta.DeleteObjectMeta(key, versionId);
      trail := trail + [Commit(DeleteMeta(key, versionId))];
    }

    method DeleteVersionLocked(seen: Status, key: Bytes, versionId: Bytes, copyId: Bytes, faults: Faults) returns (ok: bool)
      requires meta.Valid() && copyId != "" && versionId != ""
      modifies this`disk, this`trail, meta
      ensures Performed(DeleteObject(old(State()), seen, key, versionId, 0, "", copyId, faults))
      ensures
        Safe(old(State())) && FreshBlob(old(State()), copyId) ==>
          && (ok <==> !DeleteFails(old(meta.objects), key, versionId, faults))
          && if ok then VersionGone(old(State()), State(), key, versionId) else SameReads(old(State()), State())
    {
      ghost var w0 := State();
      VersionDeleteAnswers(w0, seen, key, versionId, copyId, faults);
      ghost var before := if versionId == "null" then Promotion(w0, key, copyId, faults.promotion) else Part([], true);
      ok := true;
      if versionId == "null" {
        ok := PromoteLegacyNullVersion(key, copyId, faults.promotion);
      } else {
        assert trail == trail + [];
      }
      if !ok || faults.commit {
        return false;
      }
      var removed := GetStoredRecord(key, versionId);
      ghost var finish := [Commit(DeleteMeta(key, versionId))] + RemoveData(removed);
      ExecConcat(w0, before.steps, finish);
      Concat(before.steps, [Commit(DeleteMeta(key, versionId))], RemoveData(removed));
      Concat(old(trail), before.steps, finish);
      DeleteRemoving(key, versionId, removed);
    }

    /** Metadata first, then the data it named. */
    method DeleteRemoving(key: Bytes, versionId: Bytes, removed: Option<ObjectInfo>)
      requires meta.Valid()
      modifies this`disk, this`trail, meta
      ensures Performed([Commit(DeleteMeta(key, versionId))] + RemoveData(removed))
    {
      ExecConcat(State(), [Commit(DeleteMeta(key, versionId))], RemoveData(removed));
      Concat(trail, [Commit(DeleteMeta(key, versionId))], RemoveData(removed));
      CommitDelete(key, versionId);
      RemoveRecordData(removed);
    }

    method InsertDeleteMarker(seen: Status, key: Bytes, time: int, uuid: Bytes, copyId: Bytes, faults: Faults) returns (ok: bool)
      requires meta.Valid() && copyId != "" && seen != Unversioned && (seen == Enabled ==> uuid != "")
      modifies this`disk, this`trail, meta
      ensures Performed(DeleteObject(old(State()), seen, key, "", time, uuid, copyId, faults))
      ensures
        Safe(old(State())) && FreshBlob(old(State()), copyId) && (seen == Enabled ==> FreshVersion(old(meta.objects), key, uuid)) ==>
          && (ok <==> !faults.commit && (FromBeforeVersioning(old(meta.objects), key) ==> !faults.promotion))
          && if ok then Hidden(old(State()), State(), key, if seen == Enabled then uuid else "null", time)
             else SameReads(old(State()), State())
    {
      ghost var w0 := State();
      MarkerAnswers(w0, seen, key, time, uuid, copyId, faults);
      ghost var before := Promotion(w0, key, copyId, faults.promotion);
      ok := PromoteLegacyNullVersion(key, copyId, faults.promotion);
      if !ok || faults.commit {
        return false;
      }
      var versionId := uuid;
      var replaced := None;
      if seen == Suspended {
        versionId := "null";
        replaced := GetStoredRecord(key, "null");
      }
      var info := DeleteMarker(key, time, versionId);
      ghost var finish := [Commit(PutMeta(info))] + RemoveData(replaced);
      ExecConcat(w0, before.steps, finish);
      Concat(before.steps, [Commit(PutMeta(info))], RemoveData(replaced));
      Concat(old(trail), before.steps, finish);
      CommitReplacing(info, replaced);
    }

    /** A bucket may be enabled or suspended; "Disabled" is a no-op on a bucket that
        was never versioned and an error on one that was. */
    method SetBucketVersioning(requested: Option<Status>) returns (error: Option<Error>)
      requires meta.Valid()
      modifies this`status, this`trail
      ensures Performed(Plan(old(State()), SetVersioning(requested)))
      ensures error.Some? <==> requested.None? || (requested.value == Unversioned && old(status) != Unversioned)
      ensures status == if requested == Some(Enabled) || requested == Some(Suspended) then requested.value else old(status)
    {
      ghost var w0 := State();
      assert trail == trail + [];
      if requested.None? {
        return Some(InvalidArgument);
      }
      if requested.value == Unversioned {
        if status == Enabled || status == Suspended {
          return Some(IllegalVersioningConfiguration);
        }
        return None;
      }
      OneExec(w0, Configure(requested.value));
      status := requested.value;
      trail := trail + [Configure(requested.value)];
      return None;
    }

    // --------------------------------------------------------------- expiration

    method ExpireCurrentVersion(key: Bytes, versionId: Bytes, modified: int, time: int, uuid: Bytes, copyId: Bytes, faults: Faults)
      requires meta.Valid() && copyId != "" && uuid != ""
      modifies this`disk, this`trail, meta
      ensures Performed(Plan(old(State()), ExpireCurrent(key, versionId, modified, time, uuid, copyId, faults)))
    {
      assert trail == trail + [];
      var found := meta.GetObjectMeta(key, "");
      if found.None? {
        return;
      }
      var current := found.value;
      if current.versionId != versionId || current.modified != modified {
        return;
      }
      var target := "";
      if current.isDeleteMarker {
        var versions := meta.GetObjectVersions(key);
        var i := 0;
        while i < |versions|
          invariant 0 <= i <= |versions|
          invariant forall j :: 0 <= j < i ==> versions[j].versionId == versionId
        {
          if versions[i].versionId != versionId {
            assert versions[i] in KeyVersions(meta.objects, key);
            return;
          }
          i := i + 1;
        }
        target := versionId;
      }
      var _ := DeleteObjectLocked(status, key, target, time, uuid, copyId, faults);
    }

    method ExpireNoncurrentVersion(key: Bytes, versionId: Bytes, now: int, cutoff: int, copyId: Bytes, faults: Faults)
      requires meta.Valid() && copyId != ""
      modifies this`disk, this`trail, meta
      ensures Performed(Plan(old(State()), ExpireNoncurrent(key, versionId, now, cutoff, copyId, faults)))
      ensures
        Safe(old(State())) && FreshBlob(old(State()), copyId) ==>
          if DisplacedLongAgo(old(meta.objects), key, versionId, now, cutoff) && !faults.commit then
            VersionGone(old(State()), State(), key, versionId)
          else
            SameReads(old(State()), State())
    {
      if Safe(State()) && FreshBlob(State(), copyId) {
        NoncurrentExpires(State(), ExpireNoncurrent(key, versionId, now, cutoff, copyId, faults));
      }
      assert trail == trail + [];
      var candidate := meta.GetObjectMeta(key, versionId);
      if candidate.None? || candidate.value.isLatest {
        return;
      }
      assert versionId == "" ==> RecordOk(meta.objects, Pointer(key));
      assert Version(key, versionId) in meta.objects ==> RecordOk(meta.objects, Version(key, versionId));
      assert Pointer(key) in meta.objects ==> RecordOk(meta.objects, Pointer(key));
      var since := candidate.value.noncurrentSince;
      if since.None? {
        var versions := meta.GetObjectVersions(key);
        since := EarliestSuccessor(versions, candidate.value.modified);
      }
      if since.None? || now - since.value <= cutoff {
        return;
      }
      var _ := DeleteObjectLocked(status, key, versionId, now, "", copyId, faults);
    }
  }

  /** The first time a version modified at `modified` was no longer the newest. */
  method EarliestSuccessor(versions: seq<ObjectInfo>, modified: int) returns (since: Option<int>)
    ensures since == FirstSuccessor(versions, modified)
  {
    since := None;
    var i := 0;
    while i < |versions|
      invariant 0 <= i <= |versions|
      invariant since == FirstSuccessor(versions[..i], modified)
    {
      var successor := versions[i];
      assert versions[..i + 1][..i] == versions[..i];
      if successor.modified > modified && (since.None? || successor.modified < since.value) {
        since := Some(successor.modified);
      }
      i := i + 1;
    }
    assert versions[..i] == versions;
  }

  ghost function Prepared(w: World, key: Bytes, versionId: Bytes, copyId: Bytes, fails: bool): Part {
    if versionId == "" then Part([], true) else Promotion(w, key, copyId, fails)
  }

  /** The answer of a put says what has become of it. */
  lemma PutAnswers(w: World, r: Request, ok: bool)
    requires r.PutObject?
    requires ok <==> Prepared(w, r.key, NewVersionId(w.status, r.uuid), r.copyId, r.faults.promotion).ok && r.faults.publish.Done? && !r.faults.commit
    ensures Safe(w) && Fresh(w, r) ==> (ok <==> NothingFails(w, r.key, r.faults)) && After(w, Event(r, None)) == ExecAll(w, Plan(w, r))
    ensures
      Safe(w) && Fresh(w, r) ==>
        var u := ExecAll(w, Plan(w, r));
        var newId := if w.status == Unversioned then "" else if w.status == Enabled then r.uuid else "null";
        && (ok <==> CurrentIs(u, r.key, newId, r.data, r.attributes, r.time, r.blobId))
        && (ok ==> PutDone(w, u, r.key, newId, r.data, r.attributes, r.time, r.blobId))
        && (!ok ==> SameReads(w, u))
  {
    if Safe(w) && Fresh(w, r) {
      PutTakesEffect(w, r);
      PromotionSafe(w, r.key, r.copyId, r.faults.promotion);
      BeforeVersioning(w.table, r.key);
    }
  }

  lemma VersionDeleteAnswers(w: World, seen: Status, key: Bytes, versionId: Bytes, copyId: Bytes, faults: Faults)
    requires versionId != ""
    ensures
      Safe(w) && FreshBlob(w, copyId) ==>
        var ok := (versionId != "null" || Promotion(w, key, copyId, faults.promotion).ok) && !faults.commit;
        var u := ExecAll(w, DeleteObject(w, seen, key, versionId, 0, "", copyId, faults));
        && (ok <==> !DeleteFails(w.table, key, versionId, faults))
        && if ok then VersionGone(w, u, key, versionId) else SameReads(w, u)
  {
    if Safe(w) && FreshBlob(w, copyId) {
      VersionDeleteEffect(w, seen, key, versionId, 0, "", copyId, faults);
      PromotionSafe(w, key, copyId, faults.promotion);
      BeforeVersioning(w.table, key);
    }
  }

  lemma MarkerAnswers(w: World, seen: Status, key: Bytes, time: int, uuid: Bytes, copyId: Bytes, faults: Faults)
    requires seen != Unversioned
    ensures
      Safe(w) && FreshBlob(w, copyId) && (seen == Enabled ==> FreshVersion(w.table, key, uuid)) ==>
        var ok := Promotion(w, key, copyId, faults.promotion).ok && !faults.commit;
        var u := ExecAll(w, DeleteObject(w, seen, key, "", time, uuid, copyId, faults));
        && (ok <==> !faults.commit && (FromBeforeVersioning(w.table, key) ==> !faults.promotion))
        && if ok then Hidden(w, u, key, if seen == Enabled then uuid else "null", time) else SameReads(w, u)
  {
    if Safe(w) && FreshBlob(w, copyId) && (seen == Enabled ==> FreshVersion(w.table, key, uuid)) {
      MarkerEffect(w, seen, key, time, uuid, copyId, faults);
      PromotionSafe(w, key, copyId, faults.promotion);
      BeforeVersioning(w.table, key);
    }
  }

  lemma PlanOfCommit(w: World, info: ObjectInfo, data: Bytes, copyId: Bytes, faults: Faults,
                     obsolete: seq<ObjectInfo>, replaced: Option<ObjectInfo>)
    requires obsolete == if info.versionId == "" then KeyVersions(w.table, info.key) else []
    requires Prepared(w, info.key, info.versionId, copyId, faults.promotion).ok ==>
               replaced == if info.versionId == "" || info.versionId == "null"
                           then StoredRecord(ExecAll(w, Prepared(w, info.key, info.versionId, copyId, faults.promotion).steps).table, info.key, info.versionId)
                           else None
    ensures
      var before := Prepared(w, info.key, info.versionId, copyId, faults.promotion).steps;
      var tail := PublishSteps(info, data, faults, replaced, obsolete);
      if Prepared(w, info.key, info.versionId, copyId, faults.promotion).ok then
        CommitObject(w, info, data, copyId, faults) == before + tail && ExecAll(w, before + tail) == ExecAll(ExecAll(w, before), tail)
      else
        CommitObject(w, info, data, copyId, faults) == before
  {
    ExecConcat(w, Prepared(w, info.key, info.versionId, copyId, faults.promotion).steps,
               PublishSteps(info, data, faults, replaced, obsolete));
  }

  lemma OneExec(w: World, step: Step)
    ensures ExecAll(w, [step]) == Exec(w, step)
  {
    assert ExecAll(w, [step]) == ExecAll(Exec(w, step), []);
  }

  lemma ExecSnoc(w: World, steps: seq<Step>, step: Step)
    ensures ExecAll(w, steps + [step]) == Exec(ExecAll(w, steps), step)
  {
    ExecConcat(w, steps, [step]);
    OneExec(ExecAll(w, steps), step);
  }

  lemma {:induction false} RemoveEachSnoc(recs: seq<ObjectInfo>, rec: ObjectInfo)
    ensures RemoveEach(recs + [rec]) == RemoveEach(recs) + RemoveData(Some(rec))
    decreases |recs|
  {
    if recs == [] {
      assert [rec][1..] == [];
    } else {
      assert (recs + [rec])[1..] == recs[1..] + [rec];
      RemoveEachSnoc(recs[1..], rec);
    }
  }
}
