/** What each operation on a bucket does for those who read it afterwards: a put is
    found, a deleted version is gone, and everything else reads as before. */
module Effects {
  import opened ByteOrder
  import opened Records
  import opened Publication
  import opened CrashSafety
  import opened Versioning
  import E = Expiration
  import H = History

  // ---------------------------------------------------------- what readers find

  /** How a read of a key is answered: there is no such version, it is a delete
      marker, or it has this content. */
  datatype Answer = Missing | Marker(modified: int) | Object(content: Option<Content>)

  ghost function Ask(w: World, key: Bytes, v: Bytes): Answer {
    match Lookup(w.table, key, v)
    case None => Missing
    case Some(info) => if info.isDeleteMarker then Marker(info.modified) else Object(Read(w, key, v))
  }

  /** Reading a key finds just this write, and the disk holds its data. */
  ghost predicate CurrentIs(w: World, key: Bytes, versionId: Bytes, data: Bytes, attributes: Bytes, time: int, blobId: Bytes) {
    var found := Lookup(w.table, key, "");
    && found.Some? && found.value.key == key && found.value.isLatest && !found.value.isDeleteMarker
    && found.value.versionId == versionId && Lookup(w.table, key, versionId) == found
    && found.value.size == |data| && found.value.etag == Digest(data)
    && found.value.attributes == attributes && found.value.modified == time
    && DataPath(found.value) == Blob(blobId)
    && Blob(blobId) in w.disk && w.disk[Blob(blobId)] == data
  }

  /** Reading a key finds a delete marker. */
  ghost predicate MarkedDeleted(w: World, key: Bytes, versionId: Bytes, time: int) {
    var found := Lookup(w.table, key, "");
    && found.Some? && found.value.key == key && found.value.isLatest && found.value.isDeleteMarker
    && found.value.versionId == versionId && Lookup(w.table, key, versionId) == found
    && found.value.modified == time
  }

  ghost predicate SameReads(w: World, u: World) {
    forall k, v :: Ask(u, k, v) == Ask(w, k, v)
  }

  /** Every read of another key, and of the key by a version ID not among `ids`, is
      answered as before. */
  ghost predicate SameReadsBut(w: World, u: World, key: Bytes, ids: set<Bytes>) {
    forall k, v :: k != key || v !in ids ==> Ask(u, k, v) == Ask(w, k, v)
  }

  ghost predicate OtherKeysSame(w: World, u: World, key: Bytes) {
    forall k, v :: k != key ==> Ask(u, k, v) == Ask(w, k, v)
  }

  ghost predicate DataGone(w: World, u: World, key: Bytes, v: Bytes) {
    var found := Lookup(w.table, key, v);
    found.Some? && !found.value.isDeleteMarker ==> DataPath(found.value) !in u.disk
  }

  /** The version a read of the key would find if `v` were not there: of the versions
      other than `v` the one last modified, and of equals the first in key order. */
  ghost predicate NewestBut(t: Table, key: Bytes, v: Bytes, x: Bytes) {
    && x != "" && x != v && Lookup(t, key, x).Some?
    && forall y :: y != "" && y != v && Lookup(t, key, y).Some? ==>
         || Lookup(t, key, y).value.modified < Lookup(t, key, x).value.modified
         || (Lookup(t, key, y).value.modified == Lookup(t, key, x).value.modified && Le(x, y))
  }

  /** Whether a read of the key finds version `v`; an object from before versioning
      is version "null". */
  predicate FindsVersion(t: Table, key: Bytes, v: Bytes) {
    Lookup(t, key, "").Some? && Lookup(t, key, v) == Lookup(t, key, "")
  }

  /** Version `v` and its data are gone, every other version reads as before, and the
      key shows the newest version left. */
  ghost predicate VersionGone(w: World, u: World, key: Bytes, v: Bytes) {
    && Lookup(u.table, key, v).None? && DataGone(w, u, key, v)
    && SameReadsBut(w, u, key, {"", v})
    && (!FindsVersion(w.table, key, v) ==> Ask(u, key, "") == Ask(w, key, ""))
    && (FindsVersion(w.table, key, v) ==>
          if Lookup(u.table, key, "").None? then
            forall x :: Lookup(u.table, key, x).None?
          else
            var x := Lookup(u.table, key, "").value.versionId;
            NewestBut(w.table, key, v, x) && Ask(u, key, "") == Ask(w, key, x))
  }

  /** The key has no version and no data left; other keys read as before. */
  ghost predicate KeyGone(w: World, u: World, key: Bytes) {
    && (forall v :: Lookup(u.table, key, v).None? && DataGone(w, u, key, v))
    && OtherKeysSame(w, u, key)
  }

  // ------------------------------------------------- safe reads are of the table

  /** What a safe table says a read finds. */
  ghost function Seen(found: Option<ObjectInfo>): Answer {
    if found.None? then Missing
    else if found.value.isDeleteMarker then Marker(found.value.modified)
    else Object(Some(Content(found.value.etag.of, found.value.attributes, found.value.modified)))
  }

  lemma ReadIsSeen(w: World, k: Bytes, v: Bytes)
    requires Safe(w)
    ensures Ask(w, k, v) == Seen(Lookup(w.table, k, v))
  {
    ReadableAfterRun(w, [], k, v);
  }

  /** All reads agree, as far as the tables tell. */
  ghost predicate SeenBut(t: Table, u: Table, key: Bytes, ids: set<Bytes>) {
    forall k, v :: k != key || v !in ids ==> Seen(Lookup(u, k, v)) == Seen(Lookup(t, k, v))
  }

  lemma SeenReads(w: World, u: World, key: Bytes, ids: set<Bytes>)
    requires Safe(w) && Safe(u) && SeenBut(w.table, u.table, key, ids)
    ensures SameReadsBut(w, u, key, ids)
  {
    forall k, v | k != key || v !in ids
      ensures Ask(u, k, v) == Ask(w, k, v)
    {
      ReadIsSeen(w, k, v);
      ReadIsSeen(u, k, v);
    }
  }

  lemma NothingRead(w: World, u: World, key: Bytes)
    requires SameReadsBut(w, u, key, {})
    ensures SameReads(w, u)
  {
  }

  // ---------------------------------------------------- what transactions change

  lemma PromotionSeen(t: Table, info: ObjectInfo)
    requires Consistent(t) && Promotes(t, info)
    ensures SeenBut(t, PutRaw(t, info), info.key, {})
  {
    assert RecordOk(t, Pointer(info.key));
  }

  lemma PutSeen(t: Table, info: ObjectInfo)
    requires Consistent(t) && Storable(info) && info.versionId != "" && !NeedsPromotion(t, info.key)
    ensures SeenBut(t, Put(t, info), info.key, {"", info.versionId})
  {
    var u := Put(t, info);
    forall k, v | k != info.key || v !in {"", info.versionId}
      ensures Seen(Lookup(u, k, v)) == Seen(Lookup(t, k, v))
    {
      PutGet(t, info, Version(k, v));
      PutGet(t, info, Pointer(k));
      assert Pointer(k) in t ==> RecordOk(t, Pointer(k));
    }
  }

  /** An unversioned put leaves its key one object, which answers to "null" too. */
  lemma PlainPutSeen(t: Table, info: ObjectInfo)
    requires Consistent(t) && info.versionId == ""
    ensures forall k, v :: k != info.key ==> Lookup(Put(t, info), k, v) == Lookup(t, k, v)
    ensures forall v :: v != "" && v != "null" ==> Lookup(Put(t, info), info.key, v).None?
  {
    var u := Put(t, info);
    forall k, v
      ensures k != info.key ==> Lookup(u, k, v) == Lookup(t, k, v)
      ensures k == info.key && v != "" && v != "null" ==> Lookup(u, k, v).None?
    {
      PutGet(t, info, Version(k, v));
      PutGet(t, info, Pointer(k));
    }
  }

  lemma PutFound(t: Table, info: ObjectInfo)
    ensures Lookup(Put(t, info), info.key, "") == Some(info.(isLatest := true))
    ensures Lookup(Put(t, info), info.key, info.versionId) == Some(info.(isLatest := true))
  {
    PutGet(t, info, Pointer(info.key));
    PutGet(t, info, Version(info.key, info.versionId));
  }

  lemma DeleteVersionSeen(t: Table, key: Bytes, v: Bytes)
    requires Consistent(t) && v != "" && (v == "null" ==> !NeedsPromotion(t, key))
    ensures Lookup(DeleteVersion(t, key, v), key, v).None?
    ensures SeenBut(t, DeleteVersion(t, key, v), key, {"", v})
    ensures !FindsVersion(t, key, v) ==> Lookup(DeleteVersion(t, key, v), key, "") == Lookup(t, key, "")
  {
    var u := DeleteVersion(t, key, v);
    assert Pointer(key) in t ==> RecordOk(t, Pointer(key));
    assert Version(key, v) in t ==> RecordOk(t, Version(key, v));
    assert Newest(t, key, v).Some? ==> RecordOk(t, Version(key, Newest(t, key, v).value));
    forall k, x
      ensures k != key || x !in {"", v} ==> Seen(Lookup(u, k, x)) == Seen(Lookup(t, k, x))
      ensures k == key && x == v ==> Lookup(u, k, x).None?
    {
      DeleteVersionGet(t, key, v, Version(k, x));
      DeleteVersionGet(t, key, v, Pointer(k));
      assert Version(k, x) in t ==> RecordOk(t, Version(k, x));
      assert k == key && Version(k, x) in t && x != v ==> x in VersionIds(t, key) - {v};
    }
    DeleteVersionGet(t, key, v, Pointer(key));
  }

  lemma DeleteVersionShows(t: Table, key: Bytes, v: Bytes)
    requires Consistent(t) && v != "" && (v == "null" ==> !NeedsPromotion(t, key)) && FindsVersion(t, key, v)
    ensures
      var u := DeleteVersion(t, key, v);
      if Lookup(u, key, "").None? then
        forall x :: Lookup(u, key, x).None?
      else
        var x := Lookup(u, key, "").value.versionId;
        NewestBut(t, key, v, x) && Seen(Lookup(u, key, "")) == Seen(Lookup(t, key, x))
  {
    var u := DeleteVersion(t, key, v);
    DeleteVersionConsistent(t, key, v);
    assert RecordOk(t, Pointer(key));
    assert Version(key, v) in t && RecordOk(t, Version(key, v));
    DeleteVersionGet(t, key, v, Pointer(key));
    var n := Newest(t, key, v);
    if n.None? {
      forall x
        ensures Lookup(u, key, x).None?
      {
        DeleteVersionGet(t, key, v, Version(key, x));
        assert x !in VersionIds(t, key) - {v};
      }
    } else {
      assert RecordOk(t, Version(key, n.value));
      forall y | y != "" && y != v && Lookup(t, key, y).Some?
        ensures y in VersionIds(t, key) - {v}
      {
      }
    }
  }

  lemma DeleteKeySeen(t: Table, key: Bytes)
    ensures forall v :: Lookup(DeleteKey(t, key), key, v).None?
    ensures forall k, v :: k != key ==> Lookup(DeleteKey(t, key), k, v) == Lookup(t, k, v)
  {
  }

  // -------------------------------------------------------------------- promotion

  /** The current object was stored before versioning. */
  predicate FromBeforeVersioning(t: Table, key: Bytes) {
    Lookup(t, key, "").Some? && Lookup(t, key, "").value.versionId == ""
  }

  lemma BeforeVersioning(t: Table, key: Bytes)
    requires Consistent(t)
    ensures NeedsPromotion(t, key) <==> FromBeforeVersioning(t, key)
  {
    assert Pointer(key) in t ==> RecordOk(t, Pointer(key));
  }

  /** A promotion changes no read, whether or not it succeeds. */
  lemma PromotionReads(w: World, key: Bytes, copyId: Bytes, fails: bool)
    requires Safe(w) && FreshBlob(w, copyId)
    ensures
      var p := Promotion(w, key, copyId, fails);
      var w1 := ExecAll(w, p.steps);
      && Safe(w1) && w1.status == w.status && SeenBut(w.table, w1.table, key, {})
      && (p.ok <==> (FromBeforeVersioning(w.table, key) ==> !fails))
      && (p.ok ==> !NeedsPromotion(w1.table, key))
      && (w1.table == w.table || (NeedsPromotion(w.table, key) && w1.table == PutRaw(w.table, Promoted(w, key, copyId))))
  {
    var p := Promotion(w, key, copyId, fails);
    var w1 := ExecAll(w, p.steps);
    PromotionSafe(w, key, copyId, fails);
    SafeAtEnd(w, p.steps);
    BeforeVersioning(w.table, key);
    if w1.table != w.table {
      assert RecordOk(w.table, Pointer(key));
      PromotionSeen(w.table, Promoted(w, key, copyId));
    }
  }

  // ------------------------------------------------------------------------ puts

  /** The parts of a put that can fail, do not; a promotion is part of it only if the
      bucket is versioned and the object there is from before versioning. */
  predicate NothingFails(w: World, key: Bytes, faults: Faults) {
    && faults.publish.Done? && !faults.commit
    && (w.status != Unversioned && FromBeforeVersioning(w.table, key) ==> !faults.promotion)
  }

  ghost function Before(w: World, key: Bytes, versionId: Bytes, copyId: Bytes, fails: bool): Part {
    if versionId == "" then Part([], true) else Promotion(w, key, copyId, fails)
  }

  lemma CommitTable(w: World, info: ObjectInfo, data: Bytes, copyId: Bytes, faults: Faults)
    ensures
      var before := Before(w, info.key, info.versionId, copyId, faults.promotion);
      var t := ExecAll(w, before.steps).table;
      ExecAll(w, CommitObject(w, info, data, copyId, faults)).table ==
      if before.ok && faults.publish.Done? && !faults.commit then Put(t, info) else t
  {
    var before := Before(w, info.key, info.versionId, copyId, faults.promotion);
    if before.ok {
      var w1 := ExecAll(w, before.steps);
      var replaced := if info.versionId == "" || info.versionId == "null" then
                        StoredRecord(w1.table, info.key, info.versionId)
                      else None;
      var obsolete := if info.versionId == "" then KeyVersions(w.table, info.key) else [];
      var tail := PublishSteps(info, data, faults, replaced, obsolete);
      ExecConcat(w, before.steps, tail);
      TableFollowsCommits(w1, tail);
      TailCommits(info, data, faults, replaced, obsolete);
      if faults.publish.Done? && !faults.commit {
        ApplyOne(w1.table, [PutMeta(info)]);
      }
    }
  }

  lemma BeforeReads(w: World, key: Bytes, versionId: Bytes, copyId: Bytes, fails: bool)
    requires Safe(w) && FreshBlob(w, copyId)
    ensures
      var p := Before(w, key, versionId, copyId, fails);
      var w1 := ExecAll(w, p.steps);
      && Safe(w1) && SeenBut(w.table, w1.table, key, {})
      && (p.ok <==> (versionId != "" && FromBeforeVersioning(w.table, key) ==> !fails))
      && (p.ok && versionId != "" ==> !NeedsPromotion(w1.table, key))
      && (versionId == "" ==> w1 == w)
      && forall blobId :: FreshBlob(w, blobId) && blobId != copyId ==> Blob(blobId) !in Referenced(w1.table)
  {
    var p := Before(w, key, versionId, copyId, fails);
    if versionId != "" {
      PromotionReads(w, key, copyId, fails);
      PromotionSafe(w, key, copyId, fails);
      forall blobId | FreshBlob(w, blobId) && blobId != copyId
        ensures Blob(blobId) !in Referenced(ExecAll(w, p.steps).table)
      {
        PromotionKeepsFresh(w, ExecAll(w, p.steps), key, copyId, blobId, "");
      }
    }
  }

  lemma StoredData(w: World, rk: RecordKey, data: Bytes)
    requires Safe(w) && HoldsData(w.table, rk) && w.table[rk].etag == Digest(data)
    ensures DataPath(w.table[rk]) in w.disk && w.disk[DataPath(w.table[rk])] == data
  {
  }

  lemma CurrentIsNamed(w: World, key: Bytes)
    requires Consistent(w.table)
    ensures
      var found := Lookup(w.table, key, "");
      found.Some? && !found.value.isDeleteMarker ==> DataPath(found.value) in Referenced(w.table)
  {
    if Pointer(key) in w.table && !w.table[Pointer(key)].isDeleteMarker {
      assert RecordOk(w.table, Pointer(key));
      assert HoldsData(w.table, StoredAt(w.table[Pointer(key)]));
    }
  }

  /** What a put has done once it has run to its end, if nothing failed. An
      unversioned put leaves the key this one object. */
  ghost predicate PutDone(w: World, u: World, key: Bytes, versionId: Bytes, data: Bytes, attributes: Bytes, time: int, blobId: Bytes) {
    && CurrentIs(u, key, versionId, data, attributes, time, blobId)
    && (versionId != "" ==> SameReadsBut(w, u, key, {"", versionId}))
    && (versionId == "" ==>
          && OtherKeysSame(w, u, key)
          && Ask(u, key, "null") == Ask(u, key, "")
          && forall v :: v != "" && v != "null" ==> Lookup(u.table, key, v).None?)
  }

  lemma CommitEffect(w: World, info: ObjectInfo, data: Bytes, copyId: Bytes, faults: Faults)
    requires Safe(w) && FreshBlob(w, info.blobId) && FreshBlob(w, copyId) && copyId != info.blobId
    requires !info.isDeleteMarker && info.noncurrentSince.None? && |data| == info.size && Digest(data) == info.etag
    requires info.versionId == "" || info.versionId == "null" || FreshVersion(w.table, info.key, info.versionId)
    ensures
      var u := ExecAll(w, CommitObject(w, info, data, copyId, faults));
      var fine := faults.publish.Done? && !faults.commit &&
                  (info.versionId != "" && FromBeforeVersioning(w.table, info.key) ==> !faults.promotion);
      && (fine ==> PutDone(w, u, info.key, info.versionId, data, info.attributes, info.modified, info.blobId))
      && (!fine ==> SameReads(w, u) && !CurrentIs(u, info.key, info.versionId, data, info.attributes, info.modified, info.blobId))
  {
    var steps := CommitObject(w, info, data, copyId, faults);
    var u := ExecAll(w, steps);
    var before := Before(w, info.key, info.versionId, copyId, faults.promotion);
    var w1 := ExecAll(w, before.steps);
    CommitObjectSafe(w, info, data, copyId, faults);
    SafeAtEnd(w, steps);
    CommitTable(w, info, data, copyId, faults);
    BeforeReads(w, info.key, info.versionId, copyId, faults.promotion);
    if before.ok && faults.publish.Done? && !faults.commit {
      PutEffect(w, w1, u, info, data);
    } else {
      SeenReads(w, u, info.key, {});
      NothingRead(w, u, info.key);
      CurrentIsNamed(u, info.key);
    }
  }

  lemma PutEffect(w: World, w1: World, u: World, info: ObjectInfo, data: Bytes)
    requires Safe(w) && Safe(w1) && Safe(u) && u.table == Put(w1.table, info) && info.blobId != ""
    requires SeenBut(w.table, w1.table, info.key, {}) && (info.versionId != "" ==> !NeedsPromotion(w1.table, info.key))
    requires info.versionId == "" ==> w1 == w
    requires !info.isDeleteMarker && |data| == info.size && Digest(data) == info.etag
    ensures PutDone(w, u, info.key, info.versionId, data, info.attributes, info.modified, info.blobId)
  {
    PutFound(w1.table, info);
    var rk := StoredAt(info);
    assert HoldsData(u.table, rk) && u.table[rk] == info.(isLatest := true);
    StoredData(u, rk, data);
    if info.versionId != "" {
      PutSeen(w1.table, info);
      SeenThen(w.table, w1.table, u.table, info.key, {"", info.versionId});
      SeenReads(w, u, info.key, {"", info.versionId});
    } else {
      PlainPutSeen(w.table, info);
      PutGet(w.table, info, Version(info.key, "null"));
      forall k, v | k != info.key
        ensures Ask(u, k, v) == Ask(w, k, v)
      {
        ReadIsSeen(w, k, v);
        ReadIsSeen(u, k, v);
      }
    }
  }

  lemma SeenThen(t: Table, t1: Table, u: Table, key: Bytes, ids: set<Bytes>)
    requires SeenBut(t, t1, key, {}) && SeenBut(t1, u, key, ids)
    ensures SeenBut(t, u, key, ids)
  {
  }

  /** A put of which nothing fails is what a read of the key finds from then on: the
      bytes, attributes and time of the request, under the version ID that the status of
      versioning calls for. Versions it may not replace read as before. One of which
      something fails changes no read at all. */
  lemma PutTakesEffect(w: World, r: Request)
    requires Safe(w) && Fresh(w, r) && r.PutObject?
    ensures
      var u := After(w, Event(r, None));
      var versionId := if w.status == Unversioned then "" else if w.status == Enabled then r.uuid else "null";
      && (NothingFails(w, r.key, r.faults) <==> CurrentIs(u, r.key, versionId, r.data, r.attributes, r.time, r.blobId))
      && (NothingFails(w, r.key, r.faults) ==> PutDone(w, u, r.key, versionId, r.data, r.attributes, r.time, r.blobId))
      && (!NothingFails(w, r.key, r.faults) ==> SameReads(w, u))
  {
    var info := NewObject(w.status, r.key, r.data, r.attributes, r.time, r.uuid, r.blobId);
    CommitEffect(w, info, r.data, r.copyId, r.faults);
  }

  // --------------------------------------------------------------------- deletes

  /** A delete of a version fails if its transaction does, or the promotion of an
      object from before versioning that has to be version "null" first. */
  predicate DeleteFails(t: Table, key: Bytes, versionId: Bytes, faults: Faults) {
    faults.commit || (versionId == "null" && FromBeforeVersioning(t, key) && faults.promotion)
  }

  ghost function Tail(w1: World, txn: Txn, removed: Option<ObjectInfo>): World {
    ExecAll(w1, [Commit(txn)] + RemoveData(removed))
  }

  lemma TailTakes(w1: World, txn: Txn, removed: Option<ObjectInfo>)
    ensures Tail(w1, txn, removed).table == Apply(w1.table, txn)
    ensures Tail(w1, txn, removed).disk == if removed.Some? && !removed.value.isDeleteMarker then w1.disk - {DataPath(removed.value)} else w1.disk
  {
    ExecConcat(w1, [Commit(txn)], RemoveData(removed));
    assert ExecAll(w1, [Commit(txn)]) == ExecAll(Exec(w1, Commit(txn)), []);
    if removed.Some? && !removed.value.isDeleteMarker {
      var w2 := Exec(w1, Commit(txn));
      assert ExecAll(w2, [Remove(DataPath(removed.value))]) == ExecAll(Exec(w2, Remove(DataPath(removed.value))), []);
    }
  }

  /** What the promotion before a delete of "null" leaves where the data was. */
  lemma PromotionMoves(w: World, key: Bytes, copyId: Bytes)
    requires Safe(w) && FreshBlob(w, copyId) && NeedsPromotion(w.table, key)
    ensures
      var w1 := ExecAll(w, Promotion(w, key, copyId, false).steps);
      var info := w.table[Pointer(key)];
      && StoredRecord(w1.table, key, "null").Some?
      && (DataPath(StoredRecord(w1.table, key, "null").value) == DataPath(info) || DataPath(info) !in w1.disk)
  {
    var info := w.table[Pointer(key)];
    var p := Promotion(w, key, copyId, false);
    PromotionSafe(w, key, copyId, false);
    assert RecordOk(w.table, Pointer(key));
    if info.blobId == "" {
      var front, last := p.steps[..2], Remove(Legacy(key));
      assert p.steps == front + [last];
      ExecConcat(w, front, [last]);
      assert ExecAll(ExecAll(w, front), [last]) == ExecAll(Exec(ExecAll(w, front), last), []);
    }
  }

  lemma VersionDeleteEffect(w: World, seen: Status, key: Bytes, versionId: Bytes, time: int, uuid: Bytes, copyId: Bytes, faults: Faults)
    requires Safe(w) && FreshBlob(w, copyId) && versionId != ""
    ensures
      var u := ExecAll(w, DeleteObject(w, seen, key, versionId, time, uuid, copyId, faults));
      if DeleteFails(w.table, key, versionId, faults) then SameReads(w, u) else VersionGone(w, u, key, versionId)
  {
    var steps := DeleteObject(w, seen, key, versionId, time, uuid, copyId, faults);
    var u := ExecAll(w, steps);
    var at := if versionId == "null" then "null" else "";
    var before := Before(w, key, at, copyId, faults.promotion);
    var w1 := ExecAll(w, before.steps);
    BeforeReads(w, key, at, copyId, faults.promotion);
    DeleteObjectSafe(w, seen, key, versionId, time, uuid, copyId, faults);
    SafeAtEnd(w, steps);
    if !before.ok || faults.commit {
      SeenReads(w, u, key, {});
      NothingRead(w, u, key);
    } else {
      var removed := StoredRecord(w1.table, key, versionId);
      var txn := DeleteMeta(key, versionId);
      Concat(before.steps, [Commit(txn)], RemoveData(removed));
      ExecConcat(w, before.steps, [Commit(txn)] + RemoveData(removed));
      TailTakes(w1, txn, removed);
      assert u == Tail(w1, txn, removed);
      DeletedDataGone(w, key, versionId, copyId, faults.promotion);
      VersionGoneAfter(w, w1, u, key, versionId);
    }
  }

  lemma DeletedDataGone(w: World, key: Bytes, versionId: Bytes, copyId: Bytes, fails: bool)
    requires Safe(w) && FreshBlob(w, copyId) && versionId != ""
    requires versionId == "null" && FromBeforeVersioning(w.table, key) ==> !fails
    ensures
      var w1 := ExecAll(w, Before(w, key, if versionId == "null" then "null" else "", copyId, fails).steps);
      var found, removed := Lookup(w.table, key, versionId), StoredRecord(w1.table, key, versionId);
      && (found.Some? && !found.value.isDeleteMarker ==>
            DataPath(found.value) !in w1.disk || (removed.Some? && !removed.value.isDeleteMarker && DataPath(removed.value) == DataPath(found.value)))
      && (FindsVersion(w1.table, key, versionId) <==> FindsVersion(w.table, key, versionId))
      && (forall x :: x != "" && x != versionId ==> Lookup(w1.table, key, x) == Lookup(w.table, key, x))
  {
    BeforeVersioning(w.table, key);
    assert Pointer(key) in w.table ==> RecordOk(w.table, Pointer(key));
    assert Version(key, versionId) in w.table ==> RecordOk(w.table, Version(key, versionId));
    if versionId == "null" && NeedsPromotion(w.table, key) {
      PromotionMoves(w, key, copyId);
      PromotionSafe(w, key, copyId, fails);
    }
  }

  lemma VersionGoneAfter(w: World, w1: World, u: World, key: Bytes, v: Bytes)
    requires Safe(w) && Safe(w1) && Safe(u) && v != "" && (v == "null" ==> !NeedsPromotion(w1.table, key))
    requires u.table == DeleteVersion(w1.table, key, v) && SeenBut(w.table, w1.table, key, {}) && DataGone(w, u, key, v)
    requires FindsVersion(w1.table, key, v) <==> FindsVersion(w.table, key, v)
    requires forall x :: x != "" && x != v ==> Lookup(w1.table, key, x) == Lookup(w.table, key, x)
    ensures VersionGone(w, u, key, v)
  {
    DeleteVersionSeen(w1.table, key, v);
    SeenThen(w.table, w1.table, u.table, key, {"", v});
    SeenReads(w, u, key, {"", v});
    ReadIsSeen(w, key, "");
    ReadIsSeen(u, key, "");
    if FindsVersion(w.table, key, v) {
      DeleteVersionShows(w1.table, key, v);
      if Lookup(u.table, key, "").Some? {
        var x := Lookup(u.table, key, "").value.versionId;
        ReadIsSeen(w, key, x);
        assert NewestBut(w.table, key, v, x);
      }
    }
  }

  /** The object is hidden, and its versions read as before. */
  ghost predicate Hidden(w: World, u: World, key: Bytes, versionId: Bytes, time: int) {
    MarkedDeleted(u, key, versionId, time) && SameReadsBut(w, u, key, {"", versionId})
  }

  lemma MarkerEffect(w: World, seen: Status, key: Bytes, time: int, uuid: Bytes, copyId: Bytes, faults: Faults)
    requires Safe(w) && FreshBlob(w, copyId) && seen != Unversioned && (seen == Enabled ==> FreshVersion(w.table, key, uuid))
    ensures
      var u := ExecAll(w, DeleteObject(w, seen, key, "", time, uuid, copyId, faults));
      if faults.commit || (FromBeforeVersioning(w.table, key) && faults.promotion) then SameReads(w, u)
      else Hidden(w, u, key, if seen == Enabled then uuid else "null", time)
  {
    var steps := DeleteObject(w, seen, key, "", time, uuid, copyId, faults);
    var u := ExecAll(w, steps);
    var before := Before(w, key, "null", copyId, faults.promotion);
    var w1 := ExecAll(w, before.steps);
    BeforeReads(w, key, "null", copyId, faults.promotion);
    DeleteObjectSafe(w, seen, key, "", time, uuid, copyId, faults);
    SafeAtEnd(w, steps);
    if !before.ok || faults.commit {
      SeenReads(w, u, key, {});
      NothingRead(w, u, key);
    } else {
      var marker := DeleteMarker(key, time, NewVersionId(seen, uuid));
      var replaced := if seen == Suspended then StoredRecord(w1.table, key, "null") else None;
      Concat(before.steps, [Commit(PutMeta(marker))], RemoveData(replaced));
      ExecConcat(w, before.steps, [Commit(PutMeta(marker))] + RemoveData(replaced));
      TailTakes(w1, PutMeta(marker), replaced);
      assert u == Tail(w1, PutMeta(marker), replaced);
      PutFound(w1.table, marker);
      PutSeen(w1.table, marker);
      SeenThen(w.table, w1.table, u.table, key, {"", marker.versionId});
      SeenReads(w, u, key, {"", marker.versionId});
    }
  }

  lemma WholeKeyEffect(w: World, key: Bytes, fails: bool)
    requires Safe(w)
    ensures
      var u := ExecAll(w, if Pointer(key) !in w.table || fails then []
                          else [Commit(DeleteMeta(key, ""))] + RemoveEach(KeyVersions(w.table, key)));
      if fails && Lookup(w.table, key, "").Some? then SameReads(w, u) else KeyGone(w, u, key)
  {
    var t := w.table;
    var versions := KeyVersions(t, key);
    assert forall v :: Version(key, v) in t ==> RecordOk(t, Version(key, v));
    if Pointer(key) in t && !fails {
      var steps := [Commit(DeleteMeta(key, ""))] + RemoveEach(versions);
      DeleteKeyReplaces(w, key);
      DeleteKeyConsistent(t, key);
      CommitAndRemove(w, DeleteMeta(key, ""), None, None, versions);
      assert [Commit(DeleteMeta(key, ""))] + RemoveData(None) == [Commit(DeleteMeta(key, ""))];
      DeleteKeySeen(t, key);
      KeyGoneAfter(w, ExecAll(w, steps), key);
    } else if Pointer(key) !in t {
      assert forall v :: Lookup(t, key, v).None?;
    }
  }

  lemma KeyGoneAfter(w: World, u: World, key: Bytes)
    requires Safe(w) && u.table == DeleteKey(w.table, key)
    requires u.disk == w.disk - (FilesOf(None) + Files(KeyVersions(w.table, key)))
    ensures KeyGone(w, u, key)
  {
    var t := w.table;
    DroppedFiles(t, key, KeyVersions(t, key), "");
    DeleteKeySeen(t, key);
    assert Pointer(key) in t ==> RecordOk(t, Pointer(key));
    forall v
      ensures DataGone(w, u, key, v)
    {
      var found := Lookup(t, key, v);
      if found.Some? && !found.value.isDeleteMarker {
        assert Version(key, v) in t ==> RecordOk(t, Version(key, v));
        assert HoldsData(t, StoredAt(found.value)) && t[StoredAt(found.value)] == found.value;
      }
    }
    forall k, v | k != key
      ensures Ask(u, k, v) == Ask(w, k, v)
    {
      OtherKeyReads(w, u, key, k, v);
    }
  }

  /** Another key's data is in none of the files removed. */
  lemma OtherKeyReads(w: World, u: World, key: Bytes, k: Bytes, v: Bytes)
    requires Safe(w) && k != key && Lookup(u.table, k, v) == Lookup(w.table, k, v)
    requires u.disk == w.disk - (FilesOf(None) + Files(KeyVersions(w.table, key)))
    ensures Ask(u, k, v) == Ask(w, k, v)
  {
    var t := w.table;
    var found := Lookup(t, k, v);
    if found.Some? && !found.value.isDeleteMarker {
      assert Pointer(k) in t ==> RecordOk(t, Pointer(k));
      assert Version(k, v) in t ==> RecordOk(t, Version(k, v));
      assert HoldsData(t, StoredAt(found.value)) && t[StoredAt(found.value)] == found.value;
      DroppedFiles(t, key, KeyVersions(t, key), "");
      assert DataPath(found.value) !in Files(KeyVersions(t, key));
    }
  }

  /** What a delete of which nothing fails has done: by the version ID it names, or
      else by the status of versioning it read. */
  ghost predicate Deleted(w: World, u: World, seen: Status, key: Bytes, versionId: Bytes, time: int, uuid: Bytes) {
    if versionId != "" then VersionGone(w, u, key, versionId)
    else if seen == Unversioned then KeyGone(w, u, key)
    else Hidden(w, u, key, if seen == Enabled then uuid else "null", time)
  }

  predicate Hindered(t: Table, seen: Status, key: Bytes, versionId: Bytes, faults: Faults) {
    if versionId != "" then DeleteFails(t, key, versionId, faults)
    else if seen == Unversioned then faults.commit && Lookup(t, key, "").Some?
    else faults.commit || (FromBeforeVersioning(t, key) && faults.promotion)
  }

  lemma DeleteEffect(w: World, seen: Status, key: Bytes, versionId: Bytes, time: int, uuid: Bytes, copyId: Bytes, faults: Faults)
    requires Safe(w) && FreshBlob(w, copyId) && (versionId == "" && seen == Enabled ==> FreshVersion(w.table, key, uuid))
    ensures
      var u := ExecAll(w, DeleteObject(w, seen, key, versionId, time, uuid, copyId, faults));
      if Hindered(w.table, seen, key, versionId, faults) then SameReads(w, u)
      else Deleted(w, u, seen, key, versionId, time, uuid)
  {
    if versionId != "" {
      VersionDeleteEffect(w, seen, key, versionId, time, uuid, copyId, faults);
    } else if seen != Unversioned {
      MarkerEffect(w, seen, key, time, uuid, copyId, faults);
    } else {
      WholeKeyEffect(w, key, faults.commit);
    }
  }

  /** A delete of which nothing fails removes what it names: a version with its data,
      or an unversioned bucket's whole object; on a versioned bucket one that names no
      version hides the object. Otherwise no read changes. */
  lemma DeleteTakesEffect(w: World, r: Request)
    requires Safe(w) && Fresh(w, r) && r.DeleteRequest?
    ensures
      var u := After(w, Event(r, None));
      if Hindered(w.table, w.status, r.key, r.versionId, r.faults) then SameReads(w, u)
      else Deleted(w, u, w.status, r.key, r.versionId, r.time, r.uuid)
  {
    DeleteEffect(w, w.status, r.key, r.versionId, r.time, r.uuid, r.copyId, r.faults);
  }

  // ------------------------------------------------------------------- expiration

  /** The version is noncurrent, and was displaced more than `cutoff` ago: at the time
      recorded, or else when some version modified after it was. */
  ghost predicate DisplacedLongAgo(t: Table, key: Bytes, v: Bytes, now: int, cutoff: int) {
    var found := Lookup(t, key, v);
    && found.Some? && !found.value.isLatest
    && match found.value.noncurrentSince
       case Some(since) => now - since > cutoff
       case None =>
         exists x :: x != "" && Lookup(t, key, x).Some? &&
           Lookup(t, key, x).value.modified > found.value.modified && now - Lookup(t, key, x).value.modified > cutoff
  }

  lemma DueIff(t: Table, key: Bytes, v: Bytes, now: int, cutoff: int)
    requires Consistent(t)
    ensures ExpiresNoncurrent(t, key, v, now, cutoff) <==> DisplacedLongAgo(t, key, v, now, cutoff)
    ensures ExpiresNoncurrent(t, key, v, now, cutoff) ==> v != "" && !FromBeforeVersioning(t, key)
  {
    assert Pointer(key) in t ==> RecordOk(t, Pointer(key));
    var found := Lookup(t, key, v);
    if found.Some? && !found.value.isLatest {
      assert Version(key, v) in t && RecordOk(t, Version(key, v));
      if found.value.noncurrentSince.None? {
        SuccessorIff(t, key, found.value, now, cutoff);
      }
    }
  }

  lemma SuccessorIff(t: Table, key: Bytes, info: ObjectInfo, now: int, cutoff: int)
    requires Consistent(t) && Pointer(key) in t && t[Pointer(key)].versionId != ""
    ensures
      var since := FirstSuccessor(KeyVersions(t, key), info.modified);
      (since.Some? && now - since.value > cutoff) <==>
      exists x :: x != "" && Lookup(t, key, x).Some? && Lookup(t, key, x).value.modified > info.modified && now - Lookup(t, key, x).value.modified > cutoff
  {
    var versions := KeyVersions(t, key);
    var since := FirstSuccessor(versions, info.modified);
    E.FirstSuccessorIsLeast(versions, info.modified);
    if since.Some? && now - since.value > cutoff {
      var later :| later in versions && later.modified == since.value > info.modified;
      var x := LookedUp(t, key, later);
    }
    if x :| x != "" && Lookup(t, key, x).Some? && Lookup(t, key, x).value.modified > info.modified && now - Lookup(t, key, x).value.modified > cutoff {
      assert Primary(t, Version(key, x));
      KeyVersionsAreStored(t, key, t[Version(key, x)]);
    }
  }

  lemma LookedUp(t: Table, key: Bytes, info: ObjectInfo) returns (x: Bytes)
    requires Consistent(t) && Pointer(key) in t && t[Pointer(key)].versionId != "" && info in KeyVersions(t, key)
    ensures x != "" && Lookup(t, key, x) == Some(info)
  {
    KeyVersionsAreStored(t, key, info);
    var rk: RecordKey :| rk.key == key && Primary(t, rk) && t[rk] == info;
    assert RecordOk(t, rk);
    x := rk.versionId;
  }

  /** A noncurrent version is gone after its expiration exactly if it was displaced
      long enough ago; otherwise nothing has changed. */
  lemma NoncurrentExpires(w: World, r: Request)
    requires Safe(w) && Fresh(w, r) && r.ExpireNoncurrent?
    ensures
      var u := After(w, Event(r, None));
      if DisplacedLongAgo(w.table, r.key, r.versionId, r.now, r.cutoff) && !r.faults.commit then VersionGone(w, u, r.key, r.versionId)
      else u == w || (r.faults.commit && SameReads(w, u))
  {
    DueIff(w.table, r.key, r.versionId, r.now, r.cutoff);
    if ExpiresNoncurrent(w.table, r.key, r.versionId, r.now, r.cutoff) {
      VersionDeleteEffect(w, w.status, r.key, r.versionId, r.now, "", r.copyId, r.faults);
    }
  }

  /** The version the sweep saw is still the current one. */
  predicate StillCurrent(t: Table, key: Bytes, versionId: Bytes, modified: int) {
    var found := Lookup(t, key, "");
    found.Some? && found.value.versionId == versionId && found.value.modified == modified
  }

  ghost predicate OnlyVersion(t: Table, key: Bytes, versionId: Bytes) {
    forall x :: x != "" && Lookup(t, key, x).Some? ==> x == versionId
  }

  lemma OnlyVersionIff(t: Table, key: Bytes, versionId: Bytes)
    requires Consistent(t) && Pointer(key) in t && t[Pointer(key)].versionId == versionId && versionId != ""
    ensures (forall info :: info in KeyVersions(t, key) ==> info.versionId == versionId) <==> OnlyVersion(t, key, versionId)
  {
    if OnlyVersion(t, key, versionId) {
      forall info | info in KeyVersions(t, key)
        ensures info.versionId == versionId
      {
        KeyVersionsAreStored(t, key, info);
        var rk: RecordKey :| rk.key == key && Primary(t, rk) && t[rk] == info;
        assert RecordOk(t, rk);
        assert Lookup(t, key, rk.versionId).Some?;
      }
    } else {
      var x :| x != "" && Lookup(t, key, x).Some? && x != versionId;
      assert RecordOk(t, Version(key, x)) && Primary(t, Version(key, x));
      KeyVersionsAreStored(t, key, t[Version(key, x)]);
    }
  }

  /** A sweep's expiration of a current version acts only while that is still current.
      A delete marker goes if it is all that is left of its key; an object is removed,
      or on a versioned bucket hidden. */
  lemma CurrentExpires(w: World, r: Request)
    requires Safe(w) && Fresh(w, r) && r.ExpireCurrent?
    ensures
      var u, found := After(w, Event(r, None)), Lookup(w.table, r.key, "");
      if !StillCurrent(w.table, r.key, r.versionId, r.modified) then u == w
      else if found.value.isDeleteMarker then
        if !OnlyVersion(w.table, r.key, r.versionId) then u == w
        else if r.faults.commit then SameReads(w, u)
        else VersionGone(w, u, r.key, r.versionId)
      else if Hindered(w.table, w.status, r.key, "", r.faults) then SameReads(w, u)
      else Deleted(w, u, w.status, r.key, "", r.time, r.uuid)
  {
    assert Pointer(r.key) in w.table ==> RecordOk(w.table, Pointer(r.key));
    if StillCurrent(w.table, r.key, r.versionId, r.modified) {
      if w.table[Pointer(r.key)].isDeleteMarker {
        OnlyVersionIff(w.table, r.key, r.versionId);
        VersionDeleteEffect(w, w.status, r.key, r.versionId, r.time, r.uuid, r.copyId, r.faults);
      } else {
        DeleteEffect(w, w.status, r.key, "", r.time, r.uuid, r.copyId, r.faults);
      }
    }
  }

  /** A bucket's status is what was last asked for, except that it can never be
      unversioned again. Records and data stay. */
  lemma VersioningTakesEffect(w: World, requested: Option<Status>)
    ensures
      var u := After(w, Event(SetVersioning(requested), None));
      && u.table == w.table && u.disk == w.disk
      && u.status == if requested == Some(Enabled) || requested == Some(Suspended) then requested.value else w.status
  {
    if Plan(w, SetVersioning(requested)) != [] {
      assert ExecAll(w, [Configure(requested.value)]) == ExecAll(Exec(w, Configure(requested.value)), []);
    }
  }
}
