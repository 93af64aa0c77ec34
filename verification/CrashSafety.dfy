/** A crash between any two steps leaves every record with its data, and an
    operation that runs to its end leaves no file that nothing names. */
module CrashSafety {
  import opened ByteOrder
  import opened Records
  import opened MetadataStores
  import opened Publication

  // ------------------------------------------------------------ running steps

  /** Every state on the way through `steps` is safe, the last one included. */
  ghost predicate SafeThroughout(w: World, steps: seq<Step>)
    decreases |steps|
  {
    Safe(w) && (steps != [] ==> SafeThroughout(Exec(w, steps[0]), steps[1..]))
  }

  lemma {:induction false} ExecConcat(w: World, a: seq<Step>, b: seq<Step>)
    ensures ExecAll(w, a + b) == ExecAll(ExecAll(w, a), b)
    decreases |a|
  {
    if a == [] {
      assert a + b == b;
    } else {
      assert (a + b)[1..] == a[1..] + b;
      ExecConcat(Exec(w, a[0]), a[1..], b);
    }
  }

  lemma {:induction false} SafeConcat(w: World, a: seq<Step>, b: seq<Step>)
    requires SafeThroughout(w, a) && SafeThroughout(ExecAll(w, a), b)
    ensures SafeThroughout(w, a + b)
    decreases |a|
  {
    if a == [] {
      assert a + b == b;
    } else {
      assert (a + b)[1..] == a[1..] + b;
      SafeConcat(Exec(w, a[0]), a[1..], b);
    }
  }

  lemma {:induction false} SafeAtEveryCrash(w: World, steps: seq<Step>, n: nat)
    requires SafeThroughout(w, steps) && n <= |steps|
    ensures Safe(ExecAll(w, steps[..n]))
    decreases n
  {
    if n > 0 {
      assert steps[..n][1..] == steps[1..][..n - 1];
      SafeAtEveryCrash(Exec(w, steps[0]), steps[1..], n - 1);
    }
  }

  // ------------------------------------------------------------- single steps

  lemma PublishSafe(w: World, path: Path, data: Bytes)
    requires Safe(w) && path !in Referenced(w.table)
    ensures Safe(Exec(w, Publish(path, data)))
  {
  }

  lemma RemoveSafe(w: World, path: Path)
    requires Safe(w) && path !in Referenced(w.table)
    ensures Safe(Exec(w, Remove(path)))
  {
  }

  /** Where the data of `rk` was recorded before: the same place, except that a
      promoted object moves from its pointer to its "null" version. */
  ghost function Origin(promoted: Option<Bytes>, rk: RecordKey): RecordKey {
    if promoted.Some? && rk == Version(promoted.value, "null") then Pointer(promoted.value) else rk
  }

  ghost predicate SameData(a: ObjectInfo, b: ObjectInfo) {
    DataPath(a) == DataPath(b) && a.size == b.size && a.etag == b.etag && a.isDeleteMarker == b.isDeleteMarker
  }

  /** Every data-holding record of `u` carries over from `t`, or is the one at
      `added` and names a file no record of `t` names. */
  ghost predicate CarriesOver(t: Table, u: Table, promoted: Option<Bytes>, added: Option<RecordKey>) {
    && (promoted.Some? ==> !HoldsData(u, Pointer(promoted.value)))
    && forall rk :: HoldsData(u, rk) ==>
         if added == Some(rk) then
           DataPath(u[rk]) !in Referenced(t)
         else
           HoldsData(t, Origin(promoted, rk)) && SameData(u[rk], t[Origin(promoted, rk)])
  }

  lemma CommitSafe(w: World, u: Table, promoted: Option<Bytes>, added: Option<RecordKey>)
    requires Safe(w) && Consistent(u) && CarriesOver(w.table, u, promoted, added)
    requires added.Some? && HoldsData(u, added.value) ==> HasData(w.disk, u[added.value])
    ensures Safe(w.(table := u))
  {
    var t := w.table;
    forall r1, r2 | HoldsData(u, r1) && HoldsData(u, r2) && DataPath(u[r1]) == DataPath(u[r2])
      ensures r1 == r2
    {
      if added != Some(r1) && added != Some(r2) {
        assert DataPath(t[Origin(promoted, r1)]) == DataPath(t[Origin(promoted, r2)]);
        assert Origin(promoted, r1) == Origin(promoted, r2);
      } else {
        assert added != Some(r1) ==> HoldsData(t, Origin(promoted, r1));
        assert added != Some(r2) ==> HoldsData(t, Origin(promoted, r2));
      }
    }
    forall rk | HoldsData(u, rk)
      ensures HasData(w.disk, u[rk])
    {
      assert added != Some(rk) ==> HoldsData(t, Origin(promoted, rk));
    }
  }

  // --------------------------------------------------- what transactions carry

  ghost function StoredAt(info: ObjectInfo): RecordKey {
    if info.versionId == "" then Pointer(info.key) else Version(info.key, info.versionId)
  }

  /** A put keeps every stored version except those it replaces. */
  lemma PutCarries(t: Table, info: ObjectInfo)
    requires Consistent(t) && Storable(info)
    requires info.isDeleteMarker || DataPath(info) !in Referenced(t)
    ensures CarriesOver(t, Put(t, info), None, Some(StoredAt(info)))
    ensures forall rk :: HoldsData(t, rk) && (rk.key != info.key || (rk.Version? && info.versionId != "" && rk != StoredAt(info))) ==>
              HoldsData(Put(t, info), rk) && SameData(Put(t, info)[rk], t[rk])
    ensures !info.isDeleteMarker ==> HoldsData(Put(t, info), StoredAt(info)) && SameData(Put(t, info)[StoredAt(info)], info)
    ensures info.isDeleteMarker ==> !HoldsData(Put(t, info), StoredAt(info))
  {
    var u := Put(t, info);
    forall rk
      ensures Get(u, rk) == PutAt(t, info, rk)
      ensures rk in t ==> RecordOk(t, rk)
    {
      PutGet(t, info, rk);
    }
    forall rk | HoldsData(u, rk) && rk != StoredAt(info)
      ensures HoldsData(t, rk) && SameData(u[rk], t[rk])
    {
      assert Get(u, rk) == PutAt(t, info, rk);
      assert Pointer(rk.key) in t ==> RecordOk(t, Pointer(rk.key));
    }
    forall rk | HoldsData(t, rk) && (rk.key != info.key || (rk.Version? && info.versionId != "" && rk != StoredAt(info)))
      ensures HoldsData(u, rk) && SameData(u[rk], t[rk])
    {
      assert Get(u, rk) == PutAt(t, info, rk);
      assert Pointer(rk.key) in t ==> RecordOk(t, Pointer(rk.key));
    }
    assert Get(u, StoredAt(info)) == PutAt(t, info, StoredAt(info));
  }

  lemma DeleteVersionCarries(t: Table, key: Bytes, v: Bytes)
    requires Consistent(t) && v != ""
    ensures CarriesOver(t, DeleteVersion(t, key, v), None, None)
    ensures !HoldsData(DeleteVersion(t, key, v), Version(key, v))
    ensures forall rk :: HoldsData(t, rk) && rk != Version(key, v) ==>
              HoldsData(DeleteVersion(t, key, v), rk) && SameData(DeleteVersion(t, key, v)[rk], t[rk])
  {
    var u := DeleteVersion(t, key, v);
    DeleteVersionConsistent(t, key, v);
    forall rk
      ensures Get(u, rk) == DeleteVersionAt(t, key, v, rk)
      ensures rk in t ==> RecordOk(t, rk)
      ensures rk in u ==> RecordOk(u, rk)
    {
      DeleteVersionGet(t, key, v, rk);
    }
    forall rk | HoldsData(u, rk)
      ensures HoldsData(t, rk) && SameData(u[rk], t[rk])
    {
      assert Get(u, rk) == DeleteVersionAt(t, key, v, rk);
      assert Pointer(rk.key) in t ==> RecordOk(t, Pointer(rk.key));
    }
    forall rk | HoldsData(t, rk) && rk != Version(key, v)
      ensures HoldsData(u, rk) && SameData(u[rk], t[rk])
    {
      assert Get(u, rk) == DeleteVersionAt(t, key, v, rk);
      assert Pointer(rk.key) in t ==> RecordOk(t, Pointer(rk.key));
      if rk.Version? && rk.key == key && IsCurrent(t, key, v) {
        assert rk.versionId in VersionIds(t, key) - {v};
      }
    }
  }

  lemma PromotionCarries(t: Table, info: ObjectInfo)
    requires Consistent(t) && Promotes(t, info)
    requires DataPath(info) == DataPath(t[Pointer(info.key)]) || DataPath(info) !in Referenced(t)
    ensures CarriesOver(t, PutRaw(t, info), Some(info.key),
                        if DataPath(info) == DataPath(t[Pointer(info.key)]) then None else Some(Version(info.key, "null")))
    ensures HoldsData(PutRaw(t, info), Version(info.key, "null"))
    ensures forall rk :: HoldsData(t, rk) && rk != Pointer(info.key) ==>
              HoldsData(PutRaw(t, info), rk) && SameData(PutRaw(t, info)[rk], t[rk])
  {
    var u := PutRaw(t, info);
    assert RecordOk(t, Pointer(info.key));
    assert forall rk :: rk in t && rk.Pointer? && rk.key == info.key ==> rk == Pointer(info.key);
  }

  // ---------------------------------------------------------- removal sequences

  ghost function Files(recs: seq<ObjectInfo>): set<Path> {
    set info | info in recs && !info.isDeleteMarker :: DataPath(info)
  }

  lemma FilesSplit(recs: seq<ObjectInfo>)
    requires recs != []
    ensures Files(recs) == Files([recs[0]]) + Files(recs[1..])
  {
    assert recs == [recs[0]] + recs[1..];
    assert forall info :: info in recs <==> info in [recs[0]] || info in recs[1..];
  }

  lemma {:induction false} RemovalsSafe(w: World, recs: seq<ObjectInfo>)
    requires Safe(w) && Files(recs) !! Referenced(w.table)
    ensures SafeThroughout(w, RemoveEach(recs))
    ensures ExecAll(w, RemoveEach(recs)) == w.(disk := w.disk - Files(recs))
    decreases |recs|
  {
    if recs == [] {
      assert w.disk - Files(recs) == w.disk;
    } else {
      FilesSplit(recs);
      RemoveOneSafe(w, recs[0]);
      var w1 := ExecAll(w, RemoveData(Some(recs[0])));
      RemovalsSafe(w1, recs[1..]);
      SafeConcat(w, RemoveData(Some(recs[0])), RemoveEach(recs[1..]));
      ExecConcat(w, RemoveData(Some(recs[0])), RemoveEach(recs[1..]));
      assert w.disk - Files([recs[0]]) - Files(recs[1..]) == w.disk - Files(recs);
    }
  }

  lemma RemoveOneSafe(w: World, rec: ObjectInfo)
    requires Safe(w) && Files([rec]) !! Referenced(w.table)
    ensures SafeThroughout(w, RemoveData(Some(rec)))
    ensures ExecAll(w, RemoveData(Some(rec))) == w.(disk := w.disk - Files([rec]))
  {
    if rec.isDeleteMarker {
      assert w.disk - Files([rec]) == w.disk;
    } else {
      assert rec in [rec];
      assert Files([rec]) == {DataPath(rec)};
      RemoveSafe(w, DataPath(rec));
      assert ExecAll(w, [Remove(DataPath(rec))]) == ExecAll(Exec(w, Remove(DataPath(rec))), []);
    }
  }

  // ------------------------------------------------------------------ promotion

  ghost function Promoted(w: World, key: Bytes, copyId: Bytes): ObjectInfo
    requires NeedsPromotion(w.table, key)
  {
    var info := w.table[Pointer(key)].(versionId := "null", isLatest := true);
    if info.blobId == "" then info.(blobId := copyId) else info
  }

  lemma PromotionReferences(t: Table, info: ObjectInfo)
    requires Consistent(t) && Promotes(t, info)
    requires DataPath(info) == DataPath(t[Pointer(info.key)]) || DataPath(info) !in Referenced(t)
    requires DistinctFiles(t)
    ensures Referenced(PutRaw(t, info)) == Referenced(t) - {DataPath(t[Pointer(info.key)])} + {DataPath(info)}
  {
    PromotionCarries(t, info);
    var u := PutRaw(t, info);
    assert RecordOk(t, Pointer(info.key)) && HoldsData(t, Pointer(info.key));
    forall path
      ensures path in Referenced(u) <==> path in Referenced(t) - {DataPath(t[Pointer(info.key)])} + {DataPath(info)}
    {
      if path in Referenced(u) {
        var rk :| rk in u && HoldsData(u, rk) && DataPath(u[rk]) == path;
        if rk != Version(info.key, "null") {
          assert HoldsData(t, rk) && rk != Pointer(info.key);
        }
      }
      if path == DataPath(info) {
        assert HoldsData(u, Version(info.key, "null"));
      } else if path in Referenced(t) - {DataPath(t[Pointer(info.key)])} {
        var rk :| rk in t && HoldsData(t, rk) && DataPath(t[rk]) == path;
        assert HoldsData(u, rk);
      }
    }
  }

  lemma PromoteInPlace(w: World, key: Bytes, copyId: Bytes)
    requires Safe(w) && NeedsPromotion(w.table, key) && w.table[Pointer(key)].blobId != ""
    ensures var info := Promoted(w, key, copyId);
            var w1 := w.(table := PutRaw(w.table, info));
            ExecAll(w, [Commit(PutMetaRaw(info))]) == w1 && SafeThroughout(w, [Commit(PutMetaRaw(info))]) &&
            (Exact(w) ==> Exact(w1))
  {
    var info := Promoted(w, key, copyId);
    assert RecordOk(w.table, Pointer(key)) && HoldsData(w.table, Pointer(key));
    assert Promotes(w.table, info);
    PromotionConsistent(w.table, info);
    PromotionCarries(w.table, info);
    CommitSafe(w, PutRaw(w.table, info), Some(key), None);
    PromotionReferences(w.table, info);
    assert DataPath(info) in Referenced(w.table);
    OneStep(w, Commit(PutMetaRaw(info)));
  }

  lemma OneStep(w: World, step: Step)
    requires Safe(w) && Safe(Exec(w, step))
    ensures ExecAll(w, [step]) == Exec(w, step) && SafeThroughout(w, [step])
  {
    assert ExecAll(w, [step]) == ExecAll(Exec(w, step), []);
    assert [step][1..] == [];
  }

  lemma Then(w: World, steps: seq<Step>, step: Step)
    requires SafeThroughout(w, steps) && Safe(Exec(ExecAll(w, steps), step))
    ensures ExecAll(w, steps + [step]) == Exec(ExecAll(w, steps), step)
    ensures SafeThroughout(w, steps + [step])
  {
    SafeAtEveryCrash(w, steps, |steps|);
    assert steps[..|steps|] == steps;
    OneStep(ExecAll(w, steps), step);
    ExecConcat(w, steps, [step]);
    SafeConcat(w, steps, [step]);
  }

  lemma PromoteByCopy(w: World, key: Bytes, copyId: Bytes, fails: bool)
    requires Safe(w) && NeedsPromotion(w.table, key) && w.table[Pointer(key)].blobId == "" && FreshBlob(w, copyId)
    requires Legacy(key) in w.disk
    ensures
      var steps := Promotion(w, key, copyId, fails).steps;
      var w1 := ExecAll(w, steps);
      && SafeThroughout(w, steps)
      && (Exact(w) ==> Exact(w1))
      && w1.status == w.status
      && w1.disk.Keys <= w.disk.Keys + {Blob(copyId)}
      && w1.table == (if fails then w.table else PutRaw(w.table, Promoted(w, key, copyId)))
  {
    var info := Promoted(w, key, copyId);
    assert RecordOk(w.table, Pointer(key)) && HoldsData(w.table, Pointer(key));
    assert HasData(w.disk, w.table[Pointer(key)]);
    assert Promotes(w.table, info);
    var copy := Publish(Blob(copyId), w.disk[Legacy(key)]);
    var w1 := Exec(w, copy);
    PublishSafe(w, Blob(copyId), w.disk[Legacy(key)]);
    OneStep(w, copy);
    if fails {
      RemoveSafe(w1, Blob(copyId));
      Then(w, [copy], Remove(Blob(copyId)));
      assert [copy] + [Remove(Blob(copyId))] == Promotion(w, key, copyId, fails).steps;
      assert Exec(w1, Remove(Blob(copyId))).disk == w.disk;
    } else {
      PromotionConsistent(w.table, info);
      PromotionCarries(w.table, info);
      CommitSafe(w1, PutRaw(w.table, info), Some(key), Some(Version(key, "null")));
      Then(w, [copy], Commit(PutMetaRaw(info)));
      PromotionReferences(w.table, info);
      var w2 := Exec(w1, Commit(PutMetaRaw(info)));
      assert Legacy(key) !in Referenced(w2.table);
      RemoveSafe(w2, Legacy(key));
      Then(w, [copy] + [Commit(PutMetaRaw(info))], Remove(Legacy(key)));
      assert [copy] + [Commit(PutMetaRaw(info))] + [Remove(Legacy(key))] == Promotion(w, key, copyId, fails).steps;
    }
  }

  /** A promotion that is not needed does nothing; one that fails only cleans up;
      one that succeeds re-records the object as "null". */
  lemma PromotionSafe(w: World, key: Bytes, copyId: Bytes, fails: bool)
    requires Safe(w) && FreshBlob(w, copyId)
    ensures
      var p := Promotion(w, key, copyId, fails);
      var w1 := ExecAll(w, p.steps);
      && SafeThroughout(w, p.steps)
      && (Exact(w) ==> Exact(w1))
      && (p.ok <==> NeedsPromotion(w.table, key) ==> !fails)
      && w1.status == w.status
      && w1.disk.Keys <= w.disk.Keys + {Blob(copyId)}
      && w1.table == (if p.ok && NeedsPromotion(w.table, key) then PutRaw(w.table, Promoted(w, key, copyId)) else w.table)
      && (p.ok ==> !NeedsPromotion(w1.table, key))
  {
    if NeedsPromotion(w.table, key) {
      var p := Promotion(w, key, copyId, fails);
      assert RecordOk(w.table, Pointer(key)) && HoldsData(w.table, Pointer(key));
      assert HasData(w.disk, w.table[Pointer(key)]);
      if w.table[Pointer(key)].blobId != "" {
        if !fails {
          PromoteInPlace(w, key, copyId);
        }
      } else {
        PromoteByCopy(w, key, copyId, fails);
      }
    }
  }

  // -------------------------------------------------------- writes and deletes

  lemma Append(w: World, a: seq<Step>, b: seq<Step>)
    requires SafeThroughout(w, a) && SafeThroughout(ExecAll(w, a), b)
    ensures SafeThroughout(w, a + b) && ExecAll(w, a + b) == ExecAll(ExecAll(w, a), b)
  {
    SafeConcat(w, a, b);
    ExecConcat(w, a, b);
  }

  ghost function FilesOf(rec: Option<ObjectInfo>): set<Path> {
    if rec.Some? then Files([rec.value]) else {}
  }

  lemma FinishSafe(w: World, replaced: Option<ObjectInfo>, obsolete: seq<ObjectInfo>)
    requires Safe(w) && FilesOf(replaced) + Files(obsolete) !! Referenced(w.table)
    ensures SafeThroughout(w, RemoveData(replaced) + RemoveEach(obsolete))
    ensures ExecAll(w, RemoveData(replaced) + RemoveEach(obsolete)) ==
            w.(disk := w.disk - (FilesOf(replaced) + Files(obsolete)))
  {
    if replaced.Some? {
      RemoveOneSafe(w, replaced.value);
    } else {
      assert w.disk - FilesOf(replaced) == w.disk;
    }
    var w1 := ExecAll(w, RemoveData(replaced));
    RemovalsSafe(w1, obsolete);
    Append(w, RemoveData(replaced), RemoveEach(obsolete));
    assert w.disk - FilesOf(replaced) - Files(obsolete) == w.disk - (FilesOf(replaced) + Files(obsolete));
  }

  /** `u` is `t` without the versions whose files are `dropped`, and with `added`. */
  ghost predicate Replaces(t: Table, u: Table, added: Option<RecordKey>, dropped: set<Path>) {
    && CarriesOver(t, u, None, added)
    && (forall rk :: HoldsData(t, rk) && DataPath(t[rk]) !in dropped ==> HoldsData(u, rk) && SameData(u[rk], t[rk]))
    && (forall rk :: HoldsData(u, rk) ==> DataPath(u[rk]) !in dropped)
  }

  ghost function AddedFiles(u: Table, added: Option<RecordKey>): set<Path> {
    if added.Some? && HoldsData(u, added.value) then {DataPath(u[added.value])} else {}
  }

  lemma ReplacedReferences(t: Table, u: Table, added: Option<RecordKey>, dropped: set<Path>)
    requires Replaces(t, u, added, dropped)
    ensures Referenced(u) == Referenced(t) + AddedFiles(u, added) - dropped
  {
    forall path
      ensures path in Referenced(u) <==> path in Referenced(t) + AddedFiles(u, added) - dropped
    {
      if path in Referenced(u) {
        var rk :| rk in u && HoldsData(u, rk) && DataPath(u[rk]) == path;
        assert added != Some(rk) ==> HoldsData(t, Origin(None, rk));
      }
      if path in Referenced(t) - dropped {
        var rk :| rk in t && HoldsData(t, rk) && DataPath(t[rk]) == path;
        assert HoldsData(u, rk);
      }
    }
  }

  lemma SafeAtEnd(w: World, steps: seq<Step>)
    requires SafeThroughout(w, steps)
    ensures Safe(ExecAll(w, steps))
  {
    SafeAtEveryCrash(w, steps, |steps|);
    assert steps[..|steps|] == steps;
  }

  /** Commit, then remove the files of what the transaction dropped. */
  lemma CommitAndRemove(w: World, txn: Txn, added: Option<RecordKey>, replaced: Option<ObjectInfo>, obsolete: seq<ObjectInfo>)
    requires Safe(w) && Consistent(Apply(w.table, txn))
    requires Replaces(w.table, Apply(w.table, txn), added, FilesOf(replaced) + Files(obsolete))
    requires added.Some? && HoldsData(Apply(w.table, txn), added.value) ==> HasData(w.disk, Apply(w.table, txn)[added.value])
    ensures
      var u := Apply(w.table, txn);
      var steps := [Commit(txn)] + RemoveData(replaced) + RemoveEach(obsolete);
      && SafeThroughout(w, steps)
      && ExecAll(w, steps) == w.(table := u, disk := w.disk - (FilesOf(replaced) + Files(obsolete)))
      && (w.disk.Keys == Referenced(w.table) + AddedFiles(u, added) ==> Exact(ExecAll(w, steps)))
  {
    var u := Apply(w.table, txn);
    var finish := RemoveData(replaced) + RemoveEach(obsolete);
    CommitSafe(w, u, None, added);
    OneStep(w, Commit(txn));
    var w1 := Exec(w, Commit(txn));
    FinishSafe(w1, replaced, obsolete);
    Append(w, [Commit(txn)], finish);
    assert [Commit(txn)] + RemoveData(replaced) + RemoveEach(obsolete) == [Commit(txn)] + finish;
    SafeAtEnd(w, [Commit(txn)] + finish);
    ReplacedReferences(w.table, u, added, FilesOf(replaced) + Files(obsolete));
  }

  /** The files a put of `info` makes unreachable are those of the records it
      removes afterwards. */
  lemma PutReplaces(w: World, info: ObjectInfo, replaced: Option<ObjectInfo>, obsolete: seq<ObjectInfo>)
    requires Safe(w) && Storable(info) && !NeedsPromotionFor(w.table, info)
    requires info.isDeleteMarker || DataPath(info) !in Referenced(w.table)
    requires info.versionId == "" || info.versionId == "null" || Version(info.key, info.versionId) !in w.table
    requires replaced == if info.versionId == "" || info.versionId == "null"
                         then StoredRecord(w.table, info.key, info.versionId) else None
    requires obsolete == if info.versionId == "" then KeyVersions(w.table, info.key) else []
    ensures Replaces(w.table, Put(w.table, info), Some(StoredAt(info)), FilesOf(replaced) + Files(obsolete))
  {
    var t, u, dropped := w.table, Put(w.table, info), FilesOf(replaced) + Files(obsolete);
    PutCarries(t, info);
    PutDrops(t, info, replaced, obsolete);
    forall rk | HoldsData(t, rk) && DataPath(t[rk]) !in dropped
      ensures HoldsData(u, rk) && SameData(u[rk], t[rk])
    {
      assert RecordOk(t, rk);
    }
    forall rk | HoldsData(u, rk)
      ensures DataPath(u[rk]) !in dropped
    {
      if rk == StoredAt(info) {
        assert DataPath(u[rk]) == DataPath(info);
      } else {
        assert HoldsData(t, Origin(None, rk));
        PutGet(t, info, rk);
      }
    }
  }

  /** What a put replaces: the record it overwrites and, unversioned, every
      version of the key. */
  lemma PutDrops(t: Table, info: ObjectInfo, replaced: Option<ObjectInfo>, obsolete: seq<ObjectInfo>)
    requires Consistent(t) && !NeedsPromotionFor(t, info)
    requires info.versionId == "" || info.versionId == "null" || Version(info.key, info.versionId) !in t
    requires replaced == if info.versionId == "" || info.versionId == "null"
                         then StoredRecord(t, info.key, info.versionId) else None
    requires obsolete == if info.versionId == "" then KeyVersions(t, info.key) else []
    ensures FilesOf(replaced) + Files(obsolete) <= Referenced(t)
    ensures forall rk :: HoldsData(t, rk) && rk.key == info.key && (rk == StoredAt(info) || info.versionId == "") ==>
              DataPath(t[rk]) in FilesOf(replaced) + Files(obsolete)
    ensures forall path :: path in FilesOf(replaced) + Files(obsolete) ==>
              exists rk :: HoldsData(t, rk) && rk.key == info.key && (rk == StoredAt(info) || info.versionId == "") && DataPath(t[rk]) == path
  {
    assert Pointer(info.key) in t ==> RecordOk(t, Pointer(info.key));
    DroppedFiles(t, info.key, obsolete, info.versionId);
    if replaced.Some? {
      assert HoldsData(t, StoredAt(info)) && t[StoredAt(info)] == replaced.value;
      assert FilesOf(replaced) == {DataPath(replaced.value)};
    }
    forall rk | HoldsData(t, rk) && rk.key == info.key && (rk == StoredAt(info) || info.versionId == "")
      ensures DataPath(t[rk]) in FilesOf(replaced) + Files(obsolete)
    {
      if info.versionId != "" {
        assert RecordOk(t, rk);
        assert replaced == Some(t[rk]);
      }
    }
  }

  /** The write happens on a key whose unversioned object, if any, is either
      replaced (an unversioned write) or has been promoted. */
  ghost predicate NeedsPromotionFor(t: Table, info: ObjectInfo) {
    info.versionId != "" && NeedsPromotion(t, info.key)
  }

  lemma DroppedFiles(t: Table, key: Bytes, obsolete: seq<ObjectInfo>, versionId: Bytes)
    requires Consistent(t)
    requires obsolete == if versionId == "" then KeyVersions(t, key) else []
    ensures forall path :: path in Files(obsolete) <==>
              versionId == "" && exists rk: RecordKey :: rk.key == key && HoldsData(t, rk) && DataPath(t[rk]) == path
  {
    forall path
      ensures path in Files(obsolete) <==>
              versionId == "" && exists rk: RecordKey :: rk.key == key && HoldsData(t, rk) && DataPath(t[rk]) == path
    {
      if path in Files(obsolete) {
        var info :| info in obsolete && !info.isDeleteMarker && DataPath(info) == path;
        KeyVersionsAreStored(t, key, info);
        var rk: RecordKey :| rk.key == key && Primary(t, rk) && t[rk] == info;
        assert HoldsData(t, rk);
      }
      if versionId == "" && exists rk: RecordKey :: rk.key == key && HoldsData(t, rk) && DataPath(t[rk]) == path {
        var rk: RecordKey :| rk.key == key && HoldsData(t, rk) && DataPath(t[rk]) == path;
        KeyVersionsAreStored(t, key, t[rk]);
      }
    }
  }

  /** A blob that has been published but not committed is not referenced. */
  lemma WriteTail(w: World, info: ObjectInfo, data: Bytes, faults: Faults, replaced: Option<ObjectInfo>, obsolete: seq<ObjectInfo>)
    requires Safe(w) && FreshBlob(w, info.blobId) && !info.isDeleteMarker && !NeedsPromotionFor(w.table, info)
    requires |data| == info.size && Digest(data) == info.etag
    requires info.versionId == "" || info.versionId == "null" || Version(info.key, info.versionId) !in w.table
    requires replaced == if info.versionId == "" || info.versionId == "null"
                         then StoredRecord(w.table, info.key, info.versionId) else None
    requires obsolete == if info.versionId == "" then KeyVersions(w.table, info.key) else []
    ensures
      var steps := PublishSteps(info, data, faults, replaced, obsolete);
      && SafeThroughout(w, steps)
      && (Exact(w) && !faults.publish.NotSynced? ==> Exact(ExecAll(w, steps)))
  {
    var publish := Publish(Blob(info.blobId), data);
    if !faults.publish.NotRenamed? {
      PublishSafe(w, Blob(info.blobId), data);
      OneStep(w, publish);
    }
    var w1 := Exec(w, publish);
    if faults.publish.Done? {
      if faults.commit {
        RemoveSafe(w1, Blob(info.blobId));
        Then(w, [publish], Remove(Blob(info.blobId)));
        assert Exec(w1, Remove(Blob(info.blobId))).disk == w.disk;
      } else {
        PublishedCommits(w1, info, replaced, obsolete);
        Append(w, [publish], [Commit(PutMeta(info))] + RemoveData(replaced) + RemoveEach(obsolete));
        assert Exact(w) ==> w1.disk.Keys == Referenced(w.table) + {Blob(info.blobId)};
      }
    }
  }

  lemma PublishedCommits(w: World, info: ObjectInfo, replaced: Option<ObjectInfo>, obsolete: seq<ObjectInfo>)
    requires Safe(w) && Blob(info.blobId) !in Referenced(w.table) && info.blobId != "" && HasData(w.disk, info)
    requires !info.isDeleteMarker && !NeedsPromotionFor(w.table, info)
    requires info.versionId == "" || info.versionId == "null" || Version(info.key, info.versionId) !in w.table
    requires replaced == if info.versionId == "" || info.versionId == "null"
                         then StoredRecord(w.table, info.key, info.versionId) else None
    requires obsolete == if info.versionId == "" then KeyVersions(w.table, info.key) else []
    ensures
      var steps := [Commit(PutMeta(info))] + RemoveData(replaced) + RemoveEach(obsolete);
      && SafeThroughout(w, steps)
      && ExecAll(w, steps).status == w.status
      && ExecAll(w, steps).table == Put(w.table, info)
      && (w.disk.Keys == Referenced(w.table) + {Blob(info.blobId)} ==> Exact(ExecAll(w, steps)))
  {
    PutConsistent(w.table, info);
    PutCarries(w.table, info);
    PutReplaces(w, info, replaced, obsolete);
    CommitAndRemove(w, PutMeta(info), Some(StoredAt(info)), replaced, obsolete);
    assert AddedFiles(Put(w.table, info), Some(StoredAt(info))) == {Blob(info.blobId)};
  }

  lemma CommitObjectSafe(w: World, info: ObjectInfo, data: Bytes, copyId: Bytes, faults: Faults)
    requires Safe(w) && FreshBlob(w, info.blobId) && FreshBlob(w, copyId) && copyId != info.blobId
    requires !info.isDeleteMarker && |data| == info.size && Digest(data) == info.etag
    requires info.versionId == "" || info.versionId == "null" || FreshVersion(w.table, info.key, info.versionId)
    ensures SafeThroughout(w, CommitObject(w, info, data, copyId, faults))
    ensures Exact(w) && !faults.publish.NotSynced? ==> Exact(ExecAll(w, CommitObject(w, info, data, copyId, faults)))
  {
    var obsolete := if info.versionId == "" then KeyVersions(w.table, info.key) else [];
    var before := if info.versionId == "" then Part([], true) else Promotion(w, info.key, copyId, faults.promotion);
    if info.versionId != "" {
      PromotionSafe(w, info.key, copyId, faults.promotion);
    }
    var w1 := ExecAll(w, before.steps);
    if before.ok {
      SafeAtEnd(w, before.steps);
      PromotionKeepsFresh(w, w1, info.key, copyId, info.blobId, info.versionId);
      var replaced := if info.versionId == "" || info.versionId == "null"
                      then StoredRecord(w1.table, info.key, info.versionId) else None;
      WriteTail(w1, info, data, faults, replaced, obsolete);
      Append(w, before.steps, PublishSteps(info, data, faults, replaced, obsolete));
    }
  }

  /** Promoting does not use up the identifiers drawn for the write itself. */
  lemma PromotionKeepsFresh(w: World, w1: World, key: Bytes, copyId: Bytes, blobId: Bytes, uuid: Bytes)
    requires Safe(w) && FreshBlob(w, copyId) && FreshBlob(w, blobId) && copyId != blobId
    requires w1.disk.Keys <= w.disk.Keys + {Blob(copyId)}
    requires w1.table == w.table || (NeedsPromotion(w.table, key) && w1.table == PutRaw(w.table, Promoted(w, key, copyId)))
    ensures FreshBlob(w1, blobId)
    ensures FreshVersion(w.table, key, uuid) ==> FreshVersion(w1.table, key, uuid)
  {
    if w1.table != w.table {
      var info := Promoted(w, key, copyId);
      assert RecordOk(w.table, Pointer(key)) && HoldsData(w.table, Pointer(key));
      assert Promotes(w.table, info);
      PromotionReferences(w.table, info);
      assert DataPath(w.table[Pointer(key)]) in Referenced(w.table);
    }
  }

  lemma DeleteVersionReplaces(w: World, key: Bytes, versionId: Bytes)
    requires Safe(w) && versionId != "" && (versionId == "null" ==> !NeedsPromotion(w.table, key))
    ensures Replaces(w.table, DeleteVersion(w.table, key, versionId), None, FilesOf(StoredRecord(w.table, key, versionId)) + Files([]))
  {
    var t := w.table;
    var u, removed := DeleteVersion(t, key, versionId), StoredRecord(t, key, versionId);
    DeleteVersionCarries(t, key, versionId);
    assert Pointer(key) in t ==> RecordOk(t, Pointer(key));
    assert Version(key, versionId) in t ==> RecordOk(t, Version(key, versionId));
    if removed.Some? {
      assert HoldsData(t, Version(key, versionId)) && t[Version(key, versionId)] == removed.value;
      assert FilesOf(removed) == {DataPath(removed.value)};
    }
    assert Files([]) == {};
    forall rk | HoldsData(t, rk) && DataPath(t[rk]) !in FilesOf(removed) + Files([])
      ensures HoldsData(u, rk) && SameData(u[rk], t[rk])
    {
    }
    forall rk | HoldsData(u, rk)
      ensures DataPath(u[rk]) !in FilesOf(removed) + Files([])
    {
      assert HoldsData(t, Origin(None, rk));
    }
  }

  lemma DeleteKeyReplaces(w: World, key: Bytes)
    requires Safe(w)
    ensures Replaces(w.table, DeleteKey(w.table, key), None, FilesOf(None) + Files(KeyVersions(w.table, key)))
  {
    var t, u := w.table, DeleteKey(w.table, key);
    DroppedFiles(t, key, KeyVersions(t, key), "");
    forall rk | HoldsData(u, rk)
      ensures HoldsData(t, rk) && u[rk] == t[rk] && rk.key != key
    {
    }
    forall rk | HoldsData(u, rk)
      ensures DataPath(u[rk]) !in FilesOf(None) + Files(KeyVersions(t, key))
    {
      assert HoldsData(t, rk);
    }
  }

  lemma DeleteObjectSafe(w: World, seen: Status, key: Bytes, versionId: Bytes, time: int, uuid: Bytes, copyId: Bytes, faults: Faults)
    requires Safe(w) && FreshBlob(w, copyId)
    requires versionId == "" && seen == Enabled ==> FreshVersion(w.table, key, uuid)
    ensures SafeThroughout(w, DeleteObject(w, seen, key, versionId, time, uuid, copyId, faults))
    ensures Exact(w) ==> Exact(ExecAll(w, DeleteObject(w, seen, key, versionId, time, uuid, copyId, faults)))
  {
    if versionId != "" {
      DeleteByVersionSafe(w, seen, key, versionId, time, uuid, copyId, faults);
    } else if seen != Unversioned {
      DeleteByMarkerSafe(w, seen, key, time, uuid, copyId, faults);
    } else if Pointer(key) in w.table && !faults.commit {
      DeleteKeyReplaces(w, key);
      DeleteKeyConsistent(w.table, key);
      CommitAndRemove(w, DeleteMeta(key, ""), None, None, KeyVersions(w.table, key));
      assert [Commit(DeleteMeta(key, ""))] + RemoveData(None) == [Commit(DeleteMeta(key, ""))];
    }
  }

  lemma DeleteByVersionSafe(w: World, seen: Status, key: Bytes, versionId: Bytes, time: int, uuid: Bytes, copyId: Bytes, faults: Faults)
    requires Safe(w) && FreshBlob(w, copyId) && versionId != ""
    ensures SafeThroughout(w, DeleteObject(w, seen, key, versionId, time, uuid, copyId, faults))
    ensures Exact(w) ==> Exact(ExecAll(w, DeleteObject(w, seen, key, versionId, time, uuid, copyId, faults)))
  {
    PromotionSafe(w, key, copyId, faults.promotion);
    var before := if versionId == "null" then Promotion(w, key, copyId, faults.promotion) else Part([], true);
    var w1 := ExecAll(w, before.steps);
    SafeAtEnd(w, before.steps);
    if before.ok && !faults.commit {
      VersionTailSafe(w1, key, versionId);
      var removed := StoredRecord(w1.table, key, versionId);
      var tail := [Commit(DeleteMeta(key, versionId))] + RemoveData(removed);
      Append(w, before.steps, tail);
      assert before.steps + [Commit(DeleteMeta(key, versionId))] + RemoveData(removed) == before.steps + tail;
    }
  }

  lemma VersionTailSafe(w: World, key: Bytes, versionId: Bytes)
    requires Safe(w) && versionId != "" && (versionId == "null" ==> !NeedsPromotion(w.table, key))
    ensures
      var steps := [Commit(DeleteMeta(key, versionId))] + RemoveData(StoredRecord(w.table, key, versionId));
      && SafeThroughout(w, steps)
      && (Exact(w) ==> Exact(ExecAll(w, steps)))
  {
    var removed := StoredRecord(w.table, key, versionId);
    var tail := [Commit(DeleteMeta(key, versionId))] + RemoveData(removed);
    DeleteVersionReplaces(w, key, versionId);
    DeleteVersionConsistent(w.table, key, versionId);
    CommitAndRemove(w, DeleteMeta(key, versionId), None, removed, []);
    assert tail + RemoveEach([]) == tail;
  }

  lemma DeleteByMarkerSafe(w: World, seen: Status, key: Bytes, time: int, uuid: Bytes, copyId: Bytes, faults: Faults)
    requires Safe(w) && FreshBlob(w, copyId) && seen != Unversioned
    requires seen == Enabled ==> FreshVersion(w.table, key, uuid)
    ensures SafeThroughout(w, DeleteObject(w, seen, key, "", time, uuid, copyId, faults))
    ensures Exact(w) ==> Exact(ExecAll(w, DeleteObject(w, seen, key, "", time, uuid, copyId, faults)))
  {
    PromotionSafe(w, key, copyId, faults.promotion);
    var before := Promotion(w, key, copyId, faults.promotion);
    var w1 := ExecAll(w, before.steps);
    SafeAtEnd(w, before.steps);
    if before.ok && !faults.commit {
      MarkerSafe(w1, key, time, uuid, seen);
      var marker := DeleteMarker(key, time, NewVersionId(seen, uuid));
      var replaced := if seen == Suspended then StoredRecord(w1.table, key, "null") else None;
      var tail := [Commit(PutMeta(marker))] + RemoveData(replaced);
      Append(w, before.steps, tail);
      assert before.steps + [Commit(PutMeta(marker))] + RemoveData(replaced) == before.steps + tail;
    }
  }

  lemma MarkerSafe(w: World, key: Bytes, time: int, uuid: Bytes, status: Status)
    requires Safe(w) && status != Unversioned && !NeedsPromotion(w.table, key)
    requires status == Enabled ==> uuid != "" && (uuid == "null" || Version(key, uuid) !in w.table) && uuid != "null"
    ensures
      var marker := DeleteMarker(key, time, NewVersionId(status, uuid));
      var replaced := if status == Suspended then StoredRecord(w.table, key, "null") else None;
      var steps := [Commit(PutMeta(marker))] + RemoveData(replaced);
      && SafeThroughout(w, steps)
      && (Exact(w) ==> Exact(ExecAll(w, steps)))
  {
    var marker := DeleteMarker(key, time, NewVersionId(status, uuid));
    var replaced := if status == Suspended then StoredRecord(w.table, key, "null") else None;
    PutConsistent(w.table, marker);
    PutCarries(w.table, marker);
    PutReplaces(w, marker, replaced, []);
    CommitAndRemove(w, PutMeta(marker), Some(StoredAt(marker)), replaced, []);
    assert [Commit(PutMeta(marker))] + RemoveData(replaced) + RemoveEach([]) == [Commit(PutMeta(marker))] + RemoveData(replaced);
  }

  // -------------------------------------------------------------- main results

  /** After a crash between any two steps of any request, every record that is not
      a delete marker names a file holding the bytes it was committed with; and a
      request that runs to its end leaves exactly the files that records name,
      unless a file it put in place could not be made durable. */
  lemma RequestSafe(w: World, r: Request)
    requires Safe(w) && Fresh(w, r)
    ensures SafeThroughout(w, Plan(w, r))
    ensures Exact(w) && CleansUp(r) ==> Exact(ExecAll(w, Plan(w, r)))
  {
    match r
    case PutObject(key, data, attributes, time, uuid, blobId, copyId, faults) =>
      CommitObjectSafe(w, NewObject(w.status, key, data, attributes, time, uuid, blobId), data, copyId, faults);
    case DeleteRequest(key, versionId, time, uuid, copyId, faults) =>
      DeleteObjectSafe(w, w.status, key, versionId, time, uuid, copyId, faults);
    case ExpireCurrent(key, versionId, modified, time, uuid, copyId, faults) =>
      if ExpiresCurrent(w.table, key, versionId, modified) {
        DeleteObjectSafe(w, w.status, key, if w.table[Pointer(key)].isDeleteMarker then versionId else "", time, uuid, copyId, faults);
      }
    case ExpireNoncurrent(key, versionId, now, cutoff, copyId, faults) =>
      if ExpiresNoncurrent(w.table, key, versionId, now, cutoff) {
        assert Pointer(key) in w.table ==> RecordOk(w.table, Pointer(key));
        DeleteObjectSafe(w, w.status, key, versionId, now, "", copyId, faults);
      }
    case SetVersioning(requested) =>
      if Plan(w, r) != [] {
        OneStep(w, Configure(requested.value));
      }
  }

  /** A request, and after how many of its steps the process crashes, if it does.
      Restarting changes neither records nor data files. */
  datatype Event = Event(request: Request, crash: Option<nat>)

  /** The steps an event takes in all. */
  ghost function Taken(w: World, e: Event): seq<Step> {
    var steps := Plan(w, e.request);
    if e.crash.Some? && e.crash.value <= |steps| then steps[..e.crash.value] else steps
  }

  ghost function After(w: World, e: Event): World {
    ExecAll(w, Taken(w, e))
  }

  ghost predicate Finishes(w: World, e: Event) {
    Taken(w, e) == Plan(w, e.request) && CleansUp(e.request)
  }

  ghost predicate RunOk(w: World, events: seq<Event>)
    decreases |events|
  {
    events == [] || (Fresh(w, events[0].request) && RunOk(After(w, events[0]), events[1..]))
  }

  ghost function Run(w: World, events: seq<Event>): World
    decreases |events|
  {
    if events == [] then w else Run(After(w, events[0]), events[1..])
  }

  /** No request of the run is cut off by a crash, and each cleans up. */
  ghost predicate RunFinishes(w: World, events: seq<Event>)
    decreases |events|
  {
    events == [] || (Finishes(w, events[0]) && RunFinishes(After(w, events[0]), events[1..]))
  }

  lemma AfterSafe(w: World, e: Event)
    requires Safe(w) && Fresh(w, e.request)
    ensures Safe(After(w, e))
    ensures Exact(w) && Finishes(w, e) ==> Exact(After(w, e))
  {
    var steps := Plan(w, e.request);
    RequestSafe(w, e.request);
    SafeAtEnd(w, steps);
    if e.crash.Some? && e.crash.value <= |steps| {
      SafeAtEveryCrash(w, steps, e.crash.value);
    }
  }

  lemma {:induction false} RunSafe(w: World, events: seq<Event>)
    requires Safe(w) && RunOk(w, events)
    ensures Safe(Run(w, events))
    ensures Exact(w) && RunFinishes(w, events) ==> Exact(Run(w, events))
    decreases |events|
  {
    if events != [] {
      AfterSafe(w, events[0]);
      RunSafe(After(w, events[0]), events[1..]);
    }
  }

  /** What safety gives a reader: the record a lookup finds, current or by version,
      has its data at that moment unless it is a delete marker. */
  lemma ReadableAfterRun(w: World, events: seq<Event>, key: Bytes, versionId: Bytes)
    requires Safe(w) && RunOk(w, events)
    ensures
      var w1 := Run(w, events);
      var found := Lookup(w1.table, key, versionId);
      found.Some? && !found.value.isDeleteMarker ==> HasData(w1.disk, found.value)
  {
    RunSafe(w, events);
    var t := Run(w, events).table;
    var found := Lookup(t, key, versionId);
    if found.Some? && !found.value.isDeleteMarker {
      assert Pointer(key) in t ==> RecordOk(t, Pointer(key));
      var rk := if found.value.versionId == "" then Pointer(key) else Version(key, found.value.versionId);
      assert Version(key, versionId) in t ==> RecordOk(t, Version(key, versionId));
      assert HoldsData(t, rk) && t[rk] == found.value;
    }
  }
}
