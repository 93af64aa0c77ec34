/** Reads that overlap requests. A read looks its record up and then opens the data
    file, holding no lock in between, so that a request on the key can remove the
    file in that gap. */
module OverlappingReads {
  import opened ByteOrder
  import opened Records
  import opened Publication
  import opened CrashSafety
  import opened Locality
  import I = Interleaving
  import V = Versioning
  import VS = VersionSurvival

  /** A read: what it found, whether its file was removed since it looked the record
      up, and whether a request on the key took a step since. */
  datatype Reader =
    | NotFound
    | LookedUp(info: ObjectInfo, removed: bool, disturbed: bool)
    | Opened(info: ObjectInfo, removed: bool, disturbed: bool, data: Option<Bytes>)

  datatype State = State(engine: I.State, readers: map<nat, Reader>)

  datatype Action =
    | Engine(action: I.Action)
    | LookUp(id: nat, key: Bytes, versionId: Bytes)
    | Open(id: nat)

  ghost predicate Enabled(s: State, a: Action) {
    match a
    case Engine(action) => I.Enabled(s.engine, action)
    case LookUp(id, _, _) => id !in s.readers
    case Open(id) => id in s.readers && s.readers[id].LookedUp?
  }

  /** Whether the action is a step that removes the file. */
  ghost predicate Removes(s: I.State, a: I.Action, path: Path)
    requires I.Enabled(s, a)
  {
    a.Take? && I.NextStep(s, a.key) == Remove(path)
  }

  ghost function Witnessed(s: I.State, a: I.Action, r: Reader): Reader
    requires I.Enabled(s, a)
  {
    if r.LookedUp? then
      LookedUp(r.info, r.removed || Removes(s, a, DataPath(r.info)), r.disturbed || a == I.Take(r.info.key))
    else
      r
  }

  /** A missing record, or a delete marker, ends the read at its lookup. */
  function Found(t: Table, key: Bytes, versionId: Bytes): Reader {
    match Lookup(t, key, versionId)
    case None => NotFound
    case Some(info) => if info.isDeleteMarker then NotFound else LookedUp(info, false, false)
  }

  function Contents(disk: Disk, path: Path): Option<Bytes> {
    if path in disk then Some(disk[path]) else None
  }

  ghost function Next(s: State, a: Action): State
    requires Enabled(s, a)
  {
    match a
    case Engine(action) =>
      State(I.Next(s.engine, action), map id | id in s.readers :: Witnessed(s.engine, action, s.readers[id]))
    case LookUp(id, key, versionId) =>
      s.(readers := s.readers[id := Found(s.engine.world.table, key, versionId)])
    case Open(id) =>
      var r := s.readers[id];
      s.(readers := s.readers[id := Opened(r.info, r.removed, r.disturbed, Contents(s.engine.world.disk, DataPath(r.info)))])
  }

  // ------------------------------------------------------ files are written once

  predicate PublishesIn(steps: seq<Step>, paths: set<Path>) {
    forall i :: 0 <= i < |steps| && steps[i].Publish? ==> steps[i].path in paths
  }

  predicate PublishesOnce(steps: seq<Step>) {
    forall i, j :: 0 <= i < j < |steps| && steps[i].Publish? && steps[j].Publish? ==> steps[i].path != steps[j].path
  }

  lemma PublishesConcat(a: seq<Step>, b: seq<Step>, p: set<Path>, q: set<Path>)
    requires PublishesIn(a, p) && PublishesIn(b, q) && PublishesOnce(a) && PublishesOnce(b) && p !! q
    ensures PublishesIn(a + b, p + q) && PublishesOnce(a + b)
  {
  }

  lemma {:induction false} RemovalsPublishNothing(recs: seq<ObjectInfo>)
    ensures PublishesIn(RemoveEach(recs), {})
    decreases |recs|
  {
    if recs != [] {
      RemovalsPublishNothing(recs[1..]);
    }
  }

  lemma ThenCommitPublishes(before: seq<Step>, txn: Txn, removals: seq<Step>, paths: set<Path>)
    requires PublishesIn(before, paths) && PublishesOnce(before) && PublishesIn(removals, {})
    ensures PublishesIn(before + [Step.Commit(txn)] + removals, paths) && PublishesOnce(before + [Step.Commit(txn)] + removals)
  {
    PublishesConcat(before, [Step.Commit(txn)], paths, {});
    PublishesConcat(before + [Step.Commit(txn)], removals, paths, {});
  }

  lemma PublishStepsPublish(info: ObjectInfo, data: Bytes, faults: Faults, replaced: Option<ObjectInfo>, obsolete: seq<ObjectInfo>)
    ensures
      var steps := PublishSteps(info, data, faults, replaced, obsolete);
      PublishesIn(steps, {Blob(info.blobId)}) && PublishesOnce(steps)
  {
    var finish := [] + [Step.Commit(PutMeta(info))] + RemoveData(replaced);
    assert finish == [Step.Commit(PutMeta(info))] + RemoveData(replaced);
    RemovalsPublishNothing(obsolete);
    ThenCommitPublishes([], PutMeta(info), RemoveData(replaced), {});
    PublishesConcat(finish, RemoveEach(obsolete), {}, {});
    PublishesConcat([Step.Publish(Blob(info.blobId), data)], finish + RemoveEach(obsolete), {Blob(info.blobId)}, {});
  }

  lemma CommitPublishes(w: World, info: ObjectInfo, data: Bytes, copyId: Bytes, faults: Faults)
    requires copyId != info.blobId
    ensures
      var steps := CommitObject(w, info, data, copyId, faults);
      PublishesIn(steps, {Blob(copyId), Blob(info.blobId)}) && PublishesOnce(steps)
  {
    var obsolete := if info.versionId == "" then KeyVersions(w.table, info.key) else [];
    var before := if info.versionId == "" then Part([], true) else Promotion(w, info.key, copyId, faults.promotion);
    if before.ok {
      var replaced := if info.versionId == "" || info.versionId == "null"
                      then StoredRecord(ExecAll(w, before.steps).table, info.key, info.versionId) else None;
      PublishStepsPublish(info, data, faults, replaced, obsolete);
      PublishesConcat(before.steps, PublishSteps(info, data, faults, replaced, obsolete), {Blob(copyId)}, {Blob(info.blobId)});
    }
  }

  lemma DeletePublishes(w: World, seen: Status, key: Bytes, v: Bytes, time: int, uuid: Bytes, copyId: Bytes, faults: Faults)
    ensures
      var steps := DeleteObject(w, seen, key, v, time, uuid, copyId, faults);
      PublishesIn(steps, {Blob(copyId)}) && PublishesOnce(steps)
  {
    if v == "" && seen == Unversioned {
      RemovalsPublishNothing(KeyVersions(w.table, key));
    } else {
      var before := if v == "" || v == "null" then Promotion(w, key, copyId, faults.promotion) else Part([], true);
      var txn := if v != "" then DeleteMeta(key, v) else PutMeta(DeleteMarker(key, time, NewVersionId(seen, uuid)));
      var t := ExecAll(w, before.steps).table;
      var removed := if v != "" then StoredRecord(t, key, v)
                     else if seen == Suspended then StoredRecord(t, key, "null") else None;
      ThenCommitPublishes(before.steps, txn, RemoveData(removed), {Blob(copyId)});
    }
  }

  /** A request publishes files under the blob IDs it drew, each at most once. */
  lemma PlanPublishes(w: World, r: Request)
    requires !r.SetVersioning? && Fresh(w, r)
    ensures forall i :: 0 <= i < |Plan(w, r)| && Plan(w, r)[i].Publish? ==>
              Plan(w, r)[i].path.Blob? && Plan(w, r)[i].path.id in BlobIds(r)
    ensures PublishesOnce(Plan(w, r))
  {
    match r
    case PutObject(key, data, attributes, time, uuid, blobId, copyId, faults) =>
      CommitPublishes(w, NewObject(w.status, key, data, attributes, time, uuid, blobId), data, copyId, faults);
    case DeleteRequest(key, v, time, uuid, copyId, faults) =>
      DeletePublishes(w, w.status, key, v, time, uuid, copyId, faults);
    case ExpireCurrent(key, v, modified, time, uuid, copyId, faults) =>
      DeletePublishes(w, w.status, key, v, time, uuid, copyId, faults);
      DeletePublishes(w, w.status, key, "", time, uuid, copyId, faults);
    case ExpireNoncurrent(key, v, now, cutoff, copyId, faults) =>
      DeletePublishes(w, w.status, key, v, now, "", copyId, faults);
  }

  /** What has been written so far, by path: removing a file does not take it out. */
  type Written = map<Path, Bytes>

  ghost predicate ToCome(c: I.Call, written: Written) {
    && PublishesOnce(c.plan)
    && forall j :: c.taken <= j < |c.plan| && c.plan[j].Publish? ==> c.plan[j].path !in written
  }

  /** Files on the disk hold what was written, no request under way will write one
      again, and a blob nobody is known to have drawn stays. */
  ghost predicate WrittenOk(s: I.State, written: Written) {
    && (forall path :: path in s.world.disk ==> path in written && s.world.disk[path] == written[path])
    && (forall key :: key in s.calls ==> ToCome(s.calls[key], written))
    && (forall id :: Blob(id) in written && id !in s.owners ==> Blob(id) in s.world.disk)
  }

  ghost predicate Extends(written: Written, more: Written) {
    forall path :: path in written ==> path in more && more[path] == written[path]
  }

  /** A file once written is there until a step removes it, and not after. */
  ghost predicate Lasting(s: I.State, a: I.Action, written: Written)
    requires I.Enabled(s, a)
  {
    forall path :: path in written ==>
      (path in I.Next(s, a).world.disk <==> path in s.world.disk && !Removes(s, a, path))
  }

  lemma BeginWrites(s: I.State, r: Request, written: Written)
    requires WrittenOk(s, written) && I.Enabled(s, I.Begin(r))
    ensures WrittenOk(I.Next(s, I.Begin(r)), written)
  {
    PlanPublishes(s.world, r);
    forall id | id in BlobIds(r)
      ensures Blob(id) !in written
    {
      assert FreshBlob(s.world, id);
    }
  }

  lemma TakeWrites(s: I.State, stages: I.Stages, key: Bytes, written: Written) returns (more: Written)
    requires I.Inv(s, stages) && WrittenOk(s, written) && I.Enabled(s, I.Take(key))
    ensures WrittenOk(I.Next(s, I.Take(key)), more) && Extends(written, more) && Lasting(s, I.Take(key), written)
  {
    var s1, c, step := I.Next(s, I.Take(key)), s.calls[key], I.NextStep(s, key);
    I.NextStepOf(s, stages, key);
    more := written;
    if step.Publish? {
      more := written[step.path := step.data];
      assert s1.world.disk == s.world.disk[step.path := step.data];
    }
    forall k | k in s1.calls
      ensures ToCome(s1.calls[k], more)
    {
      if k != key && step.Publish? {
        OthersToCome(s, stages, key, k);
      }
    }
  }

  /** A file one request writes is none that another will write. */
  lemma OthersToCome(s: I.State, stages: I.Stages, key: Bytes, k: Bytes)
    requires I.Inv(s, stages) && I.Enabled(s, I.Take(key)) && k in s.calls && k != key && I.NextStep(s, key).Publish?
    ensures forall j :: 0 <= j < |s.calls[k].plan| && s.calls[k].plan[j].Publish? ==>
              s.calls[k].plan[j].path != I.NextStep(s, key).path
  {
    var c := s.calls[k];
    I.NextStepOf(s, stages, key);
    assert I.CallOk(s, stages, k) && I.StageOk(s.owners, s.log, stages, c.at);
    PlanOf(s.owners, stages[c.at], c.request);
  }

  lemma StepWrites(s: I.State, stages: I.Stages, a: I.Action, written: Written) returns (more: Written)
    requires I.Inv(s, stages) && WrittenOk(s, written) && I.Enabled(s, a)
    ensures WrittenOk(I.Next(s, a), more) && Extends(written, more) && Lasting(s, a, written)
  {
    more := written;
    match a
    case Begin(r) => BeginWrites(s, r, written);
    case Take(key) => more := TakeWrites(s, stages, key, written);
    case Switch(requested) =>
      var steps := Reconfigure(requested);
      if steps != [] {
        assert ExecAll(s.world, steps) == ExecAll(Exec(s.world, steps[0]), []);
      }
    case _ =>
  }

  // ------------------------------------------------------------------- readers

  /** What a record says of its data. */
  predicate Matches(info: ObjectInfo, data: Bytes) {
    |data| == info.size && Digest(data) == info.etag
  }

  ghost predicate ReaderOk(s: I.State, written: Written, r: Reader) {
    && (r.LookedUp? ==>
          && DataPath(r.info) in written && Matches(r.info, written[DataPath(r.info)])
          && Owns(s.owners, r.info.key, DataPath(r.info))
          && (DataPath(r.info) in s.world.disk <==> !r.removed))
    && (r.Opened? ==> (r.data.None? <==> r.removed) && (r.data.Some? ==> Matches(r.info, r.data.value)))
    && (!r.NotFound? && r.removed ==> r.disturbed)
  }

  ghost predicate Inv(s: State, stages: I.Stages, written: Written) {
    && I.Inv(s.engine, stages) && WrittenOk(s.engine, written)
    && forall id :: id in s.readers ==> ReaderOk(s.engine, written, s.readers[id])
  }

  lemma EngineKeepsReader(s: I.State, stages: I.Stages, a: I.Action, written: Written, more: Written, r: Reader)
    requires I.Inv(s, stages) && WrittenOk(s, written) && I.Enabled(s, a) && ReaderOk(s, written, r)
    requires Extends(written, more) && Lasting(s, a, written)
    ensures ReaderOk(I.Next(s, a), more, Witnessed(s, a, r))
  {
    if r.LookedUp? && Removes(s, a, DataPath(r.info)) {
      I.NextStepOf(s, stages, a.key);
    }
  }

  lemma LookUpFinds(s: I.State, stages: I.Stages, written: Written, key: Bytes, versionId: Bytes)
    requires I.Inv(s, stages) && WrittenOk(s, written)
    ensures ReaderOk(s, written, Found(s.world.table, key, versionId))
  {
    VS.InvSafe(s, stages);
    VS.ReadHasData(s.world, key, versionId);
    var t := s.world.table;
    var found := Lookup(t, key, versionId);
    if found.Some? && !found.value.isDeleteMarker {
      var rk := if Version(key, versionId) in t && t[Version(key, versionId)] == found.value
                then Version(key, versionId) else Pointer(key);
      assert rk in t && t[rk] == found.value;
    }
  }

  lemma StepKeepsInv(s: State, stages: I.Stages, written: Written, a: Action) returns (moved: I.Stages, more: Written)
    requires Inv(s, stages, written) && Enabled(s, a)
    ensures Inv(Next(s, a), moved, more)
  {
    moved, more := stages, written;
    match a
    case Engine(action) =>
      more := StepWrites(s.engine, stages, action, written);
      forall id | id in s.readers
        ensures ReaderOk(I.Next(s.engine, action), more, Witnessed(s.engine, action, s.readers[id]))
      {
        EngineKeepsReader(s.engine, stages, action, written, more, s.readers[id]);
      }
      moved := I.StepKeepsInv(s.engine, stages, action);
    case LookUp(_, key, versionId) => LookUpFinds(s.engine, stages, written, key, versionId);
    case Open(id) => assert ReaderOk(s.engine, written, s.readers[id]);
  }

  ghost predicate Runs(s: State, actions: seq<Action>)
    decreases |actions|
  {
    actions == [] || (Enabled(s, actions[0]) && Runs(Next(s, actions[0]), actions[1..]))
  }

  ghost function Final(s: State, actions: seq<Action>): State
    requires Runs(s, actions)
    decreases |actions|
  {
    if actions == [] then s else Final(Next(s, actions[0]), actions[1..])
  }

  lemma {:induction false} RunKeepsInv(s: State, stages: I.Stages, written: Written, actions: seq<Action>)
    returns (moved: I.Stages, more: Written)
    requires Inv(s, stages, written) && Runs(s, actions)
    ensures Inv(Final(s, actions), moved, more)
    decreases |actions|
  {
    moved, more := stages, written;
    if actions != [] {
      moved, more := StepKeepsInv(s, stages, written, actions[0]);
      moved, more := RunKeepsInv(Next(s, actions[0]), moved, more, actions[1..]);
    }
  }

  ghost predicate Starts(s: State) {
    I.Starts(s.engine) && s.readers == map[]
  }

  /** Over every interleaving of reads with requests: an open that finds the file
      finds the bytes the record was committed with, and it fails if and only if a
      step since the lookup removed the file. */
  lemma OpensFindCommittedBytes(s: State, actions: seq<Action>, id: nat)
    requires Starts(s) && Runs(s, actions) && id in Final(s, actions).readers && Final(s, actions).readers[id].Opened?
    ensures
      var r := Final(s, actions).readers[id];
      && (r.data.Some? ==> |r.data.value| == r.info.size && Digest(r.data.value) == r.info.etag)
      && (r.data.None? <==> r.removed)
  {
    var _, written := RunKeepsInv(s, [s.engine.world], s.engine.world.disk, actions);
    assert ReaderOk(Final(s, actions).engine, written, Final(s, actions).readers[id]);
  }

  /** A read that no step of a request on its key falls into does not fail. */
  lemma UndisturbedReadsSucceed(s: State, actions: seq<Action>, id: nat)
    requires Starts(s) && Runs(s, actions) && id in Final(s, actions).readers && Final(s, actions).readers[id].Opened?
    requires !Final(s, actions).readers[id].disturbed
    ensures Final(s, actions).readers[id].data.Some?
  {
    var _, written := RunKeepsInv(s, [s.engine.world], s.engine.world.disk, actions);
    assert ReaderOk(Final(s, actions).engine, written, Final(s, actions).readers[id]);
  }

  /** On a versioned bucket, in a run in which versions survive: the file of a blob
      looked up before it is there after it, so that only a read of an object stored
      before blobs can fail, where a promotion moves it. */
  lemma SurvivingVersionsOpen(s: I.State, before: seq<I.Action>, after: seq<I.Action>, key: Bytes, v: Bytes)
    requires I.Starts(s) && VS.NeverVersioned(s.world) && I.Runs(s, before) && I.Runs(I.Final(s, before), after)
    requires
      var s1 := I.Final(s, before);
      && s1.world.status != Unversioned && VS.NamesNone(s1, after) && VS.NoneOvertaken(s1, after)
      && v != "" && V.Read(s1.world, key, v).Some?
      && (v == "null" ==> VS.MayReplace(s1.world.status, after, {}))
    requires Lookup(I.Final(s, before).world.table, key, v).value.blobId != ""
    ensures
      var info := Lookup(I.Final(s, before).world.table, key, v).value;
      var disk := I.Final(I.Final(s, before), after).world.disk;
      DataPath(info) in disk && Matches(info, disk[DataPath(info)])
  {
    var s1 := I.Final(s, before);
    var stages := I.Reach(s, before);
    VS.RunKeeps(s1, stages, after, if VS.MayReplace(s1.world.status, after, {}) then {} else {"null"});
    var last := I.RunKeepsInv(s1, stages, after);
    VS.InvSafe(I.Final(s1, after), last);
    VS.ReadHasData(I.Final(s1, after).world, key, v);
  }

  // ------------------------------------------------------------ a read that fails

  /** The first steps of a put to a key with an object stored before blobs. */
  lemma PromotesFirst(w: World, r: Request)
    requires r.PutObject? && r.faults == Faults(false, Done, false)
    requires Safe(w) && w.status == Status.Enabled && Fresh(w, r)
    requires NeedsPromotion(w.table, r.key) && w.table[Pointer(r.key)].blobId == ""
    ensures |Plan(w, r)| > 3 && Legacy(r.key) in w.disk
    ensures Plan(w, r)[0] == Step.Publish(Blob(r.copyId), w.disk[Legacy(r.key)])
    ensures Plan(w, r)[1] == Step.Commit(PutMetaRaw(Promoted(w, r.key, r.copyId)))
    ensures Plan(w, r)[2] == Remove(Legacy(r.key))
  {
    assert RecordOk(w.table, Pointer(r.key)) && HoldsData(w.table, Pointer(r.key));
    assert HasData(w.disk, w.table[Pointer(r.key)]);
  }

  /** After those steps the object is read as before, from its new file. */
  lemma ReadsAsBefore(w: World, key: Bytes, copyId: Bytes)
    requires Safe(w) && NeedsPromotion(w.table, key) && w.table[Pointer(key)].blobId == "" && copyId != "" && Legacy(key) in w.disk
    ensures
      var after := w.(table := PutRaw(w.table, Promoted(w, key, copyId)),
                      disk := w.disk[Blob(copyId) := w.disk[Legacy(key)]] - {Legacy(key)});
      V.Read(w, key, "null").Some? && V.Read(after, key, "null") == V.Read(w, key, "null")
    ensures Found(w.table, key, "null") == LookedUp(w.table[Pointer(key)], false, false)
    ensures DataPath(w.table[Pointer(key)]) == Legacy(key)
  {
    assert RecordOk(w.table, Pointer(key));
  }

  lemma ThreeSteps(s: I.State, r: Request) returns (s1: I.State, s2: I.State, s3: I.State, s4: I.State)
    requires I.Starts(s) && s.world.status == Status.Enabled && I.Enabled(s, I.Begin(r))
    requires r.PutObject? && r.faults == Faults(false, Done, false)
    requires NeedsPromotion(s.world.table, r.key) && s.world.table[Pointer(r.key)].blobId == ""
    ensures s1 == I.Next(s, I.Begin(r)) && Legacy(r.key) in s.world.disk
    ensures I.Enabled(s1, I.Take(r.key)) && s2 == I.Next(s1, I.Take(r.key)) && I.NextStep(s1, r.key).Publish?
    ensures I.Enabled(s2, I.Take(r.key)) && s3 == I.Next(s2, I.Take(r.key)) && I.NextStep(s2, r.key).Commit?
    ensures I.Enabled(s3, I.Take(r.key)) && s4 == I.Next(s3, I.Take(r.key)) && I.NextStep(s3, r.key) == Remove(Legacy(r.key))
    ensures s4.world == s.world.(table := PutRaw(s.world.table, Promoted(s.world, r.key, r.copyId)),
                                 disk := s.world.disk[Blob(r.copyId) := s.world.disk[Legacy(r.key)]] - {Legacy(r.key)})
  {
    PromotesFirst(s.world, r);
    s1 := I.Next(s, I.Begin(r));
    s2 := I.Next(s1, I.Take(r.key));
    s3 := I.Next(s2, I.Take(r.key));
    s4 := I.Next(s3, I.Take(r.key));
  }

  /** A version that is stored throughout, and a read of it that fails: the file it
      looked up is removed when a put promotes the object. */
  lemma PromotionOvertakesRead(s: State, r: Request, id: nat)
    requires Starts(s) && s.engine.world.status == Status.Enabled && I.Enabled(s.engine, I.Begin(r))
    requires r.PutObject? && r.faults == Faults(false, Done, false)
    requires NeedsPromotion(s.engine.world.table, r.key) && s.engine.world.table[Pointer(r.key)].blobId == ""
    ensures
      var actions := [LookUp(id, r.key, "null"), Engine(I.Begin(r)), Engine(I.Take(r.key)), Engine(I.Take(r.key)),
                      Engine(I.Take(r.key)), Open(id)];
      && Runs(s, actions) && id in Final(s, actions).readers
      && Final(s, actions).readers[id].Opened? && Final(s, actions).readers[id].data.None?
      && V.Read(s.engine.world, r.key, "null").Some?
      && V.Read(Final(s, actions).engine.world, r.key, "null") == V.Read(s.engine.world, r.key, "null")
  {
    var take := Engine(I.Take(r.key));
    var actions := [LookUp(id, r.key, "null"), Engine(I.Begin(r)), take, take, take, Open(id)];
    var info := s.engine.world.table[Pointer(r.key)];
    var e1, e2, e3, e4 := ThreeSteps(s.engine, r);
    ReadsAsBefore(s.engine.world, r.key, r.copyId);
    assert RecordOk(s.engine.world.table, Pointer(r.key));
    var seen, disturbed, removed := LookedUp(info, false, false), LookedUp(info, false, true), LookedUp(info, true, true);
    var states := [s, With(s.engine, id, seen), With(e1, id, seen), With(e2, id, disturbed), With(e3, id, disturbed),
                   With(e4, id, removed), With(e4, id, Opened(info, true, true, None))];
    LooksAndBegins(s, e1, r, id, info);
    Witnesses(e1, e2, r.key, id, seen);
    Witnesses(e2, e3, r.key, id, disturbed);
    Witnesses(e3, e4, r.key, id, disturbed);
    OpensNothing(e4, id, info);
    Chain(states, actions);
  }

  function With(engine: I.State, id: nat, r: Reader): State {
    State(engine, map[id := r])
  }

  lemma LooksAndBegins(s: State, e: I.State, r: Request, id: nat, info: ObjectInfo)
    requires s.readers == map[] && I.Enabled(s.engine, I.Begin(r)) && e == I.Next(s.engine, I.Begin(r))
    requires Found(s.engine.world.table, r.key, "null") == LookedUp(info, false, false)
    ensures Leads(s, LookUp(id, r.key, "null"), With(s.engine, id, LookedUp(info, false, false)))
    ensures Leads(With(s.engine, id, LookedUp(info, false, false)), Engine(I.Begin(r)), With(e, id, LookedUp(info, false, false)))
  {
  }

  lemma OpensNothing(e: I.State, id: nat, info: ObjectInfo)
    requires DataPath(info) !in e.world.disk
    ensures Leads(With(e, id, LookedUp(info, true, true)), Open(id), With(e, id, Opened(info, true, true, None)))
  {
  }

  ghost predicate Leads(s: State, a: Action, next: State) {
    Enabled(s, a) && Next(s, a) == next
  }

  /** A step of the request as the reader sees it. */
  lemma Witnesses(e: I.State, next: I.State, key: Bytes, id: nat, r: Reader)
    requires I.Enabled(e, I.Take(key)) && next == I.Next(e, I.Take(key)) && r.LookedUp? && r.info.key == key && !r.removed
    ensures
      var removes := Removes(e, I.Take(key), DataPath(r.info));
      Leads(With(e, id, r), Engine(I.Take(key)), With(next, id, LookedUp(r.info, removes, true)))
  {
  }

  lemma {:induction false} Chain(states: seq<State>, actions: seq<Action>)
    requires |states| == |actions| + 1
    requires forall i :: 0 <= i < |actions| ==> Leads(states[i], actions[i], states[i + 1])
    ensures Runs(states[0], actions) && Final(states[0], actions) == states[|actions|]
    decreases |actions|
  {
    if actions != [] {
      assert Leads(states[0], actions[0], states[1]);
      Chain(states[1..], actions[1..]);
    }
  }
}
