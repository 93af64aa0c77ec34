/** Crash-ordered publication: an operation on a key is a fixed sequence of
    durable steps, and a crash may fall between any two of them. */
module Publication {
  import opened ByteOrder
  import opened Records

  /** Where a version's data is kept: in its own blob or, for data written before
      blobs, at the path made from its key. */
  datatype Path = Blob(id: Bytes) | Legacy(key: Bytes)

  type Disk = map<Path, Bytes>

  datatype Status = Unversioned | Enabled | Suspended

  datatype World = World(status: Status, table: Table, disk: Disk)

  datatype Txn =
    | PutMeta(info: ObjectInfo)
    | PutMetaRaw(info: ObjectInfo)
    | DeleteMeta(key: Bytes, versionId: Bytes)

  datatype Step =
    | Publish(path: Path, data: Bytes)
    | Commit(txn: Txn)
    | Remove(path: Path)
    | Configure(status: Status)

  function DataPath(info: ObjectInfo): Path {
    if info.blobId == "" then Legacy(info.key) else Blob(info.blobId)
  }

  ghost function Apply(t: Table, txn: Txn): Table {
    match txn
    case PutMeta(info) => Put(t, info)
    case PutMetaRaw(info) => PutRaw(t, info)
    case DeleteMeta(key, versionId) => if versionId == "" then DeleteKey(t, key) else DeleteVersion(t, key, versionId)
  }

  ghost function Exec(w: World, step: Step): World {
    match step
    case Publish(path, data) => w.(disk := w.disk[path := data])
    case Commit(txn) => w.(table := Apply(w.table, txn))
    case Remove(path) => w.(disk := w.disk - {path})
    case Configure(status) => w.(status := status)
  }

  ghost function ExecAll(w: World, steps: seq<Step>): World
    decreases |steps|
  {
    if steps == [] then w else ExecAll(Exec(w, steps[0]), steps[1..])
  }

  // --------------------------------------------------------------- operations

  /** How putting a written file in place ends: a rename can fail, and so can
      making a rename durable. */
  datatype Placed = Done | NotRenamed | NotSynced

  /** Which parts of an operation fail: the promotion's transaction, putting the
      written file in place, the main transaction. */
  datatype Faults = Faults(promotion: bool, publish: Placed, commit: bool)

  /** The record holding data for a key at a version, if there is one. */
  function StoredRecord(t: Table, key: Bytes, versionId: Bytes): Option<ObjectInfo> {
    match Lookup(t, key, versionId)
    case None => None
    case Some(rec) => if rec.isDeleteMarker || rec.versionId != versionId then None else Some(rec)
  }

  function RemoveData(rec: Option<ObjectInfo>): seq<Step> {
    if rec.None? || rec.value.isDeleteMarker then [] else [Remove(DataPath(rec.value))]
  }

  function RemoveEach(recs: seq<ObjectInfo>): seq<Step> {
    if recs == [] then [] else RemoveData(Some(recs[0])) + RemoveEach(recs[1..])
  }

  /** Steps of an operation's part, and whether the operation goes on after them. */
  datatype Part = Part(steps: seq<Step>, ok: bool)

  predicate NeedsPromotion(t: Table, key: Bytes) {
    Pointer(key) in t && t[Pointer(key)].versionId == "" && !t[Pointer(key)].isDeleteMarker
  }

  /** An unversioned object becomes version "null". Data at a key-derived path is
      copied to a fresh blob first and the old file removed last. */
  function Promotion(w: World, key: Bytes, blobId: Bytes, fails: bool): Part {
    if !NeedsPromotion(w.table, key) then
      Part([], true)
    else
      var promoted := w.table[Pointer(key)].(versionId := "null", isLatest := true);
      if promoted.blobId != "" then
        if fails then Part([], false) else Part([Commit(PutMetaRaw(promoted))], true)
      else if Legacy(key) !in w.disk then
        Part([], false)
      else
        var copy := Publish(Blob(blobId), w.disk[Legacy(key)]);
        if fails then
          Part([copy, Remove(Blob(blobId))], false)
        else
          Part([copy, Commit(PutMetaRaw(promoted.(blobId := blobId))), Remove(Legacy(key))], true)
  }

  /** The written file is renamed into place and its record committed; only then
      is the data of the records it replaces removed. */
  function PublishSteps(info: ObjectInfo, data: Bytes, faults: Faults, replaced: Option<ObjectInfo>, obsolete: seq<ObjectInfo>): seq<Step> {
    var publish := Publish(Blob(info.blobId), data);
    match faults.publish
    case NotRenamed => []
    case NotSynced => [publish]
    case Done =>
      [publish] + if faults.commit then [Remove(Blob(info.blobId))]
                  else [Commit(PutMeta(info))] + RemoveData(replaced) + RemoveEach(obsolete)
  }

  /** Publishes written data as the new version `info` of its key. */
  ghost function CommitObject(w: World, info: ObjectInfo, data: Bytes, copyId: Bytes, faults: Faults): seq<Step> {
    var obsolete := if info.versionId == "" then KeyVersions(w.table, info.key) else [];
    var before := if info.versionId == "" then Part([], true) else Promotion(w, info.key, copyId, faults.promotion);
    if !before.ok then
      before.steps
    else
      var w1 := ExecAll(w, before.steps);
      var replaced := if info.versionId == "" || info.versionId == "null" then
                        StoredRecord(w1.table, info.key, info.versionId)
                      else None;
      before.steps + PublishSteps(info, data, faults, replaced, obsolete)
  }

  function NewVersionId(status: Status, uuid: Bytes): Bytes {
    match status
    case Unversioned => ""
    case Enabled => uuid
    case Suspended => "null"
  }

  function DeleteMarker(key: Bytes, time: int, versionId: Bytes): ObjectInfo {
    ObjectInfo(key, 0, Digest([]), [], time, versionId, false, None, true, "")
  }

  /** A delete acts on the status of versioning it read, `seen`. */
  ghost function DeleteObject(w: World, seen: Status, key: Bytes, versionId: Bytes, time: int, uuid: Bytes, copyId: Bytes, faults: Faults): seq<Step> {
    if versionId != "" then
      var before := if versionId == "null" then Promotion(w, key, copyId, faults.promotion) else Part([], true);
      if !before.ok || faults.commit then
        before.steps
      else
        var removed := StoredRecord(ExecAll(w, before.steps).table, key, versionId);
        before.steps + [Commit(DeleteMeta(key, versionId))] + RemoveData(removed)
    else if seen != Unversioned then
      var before := Promotion(w, key, copyId, faults.promotion);
      if !before.ok || faults.commit then
        before.steps
      else
        var replaced := if seen == Suspended then StoredRecord(ExecAll(w, before.steps).table, key, "null") else None;
        before.steps + [Commit(PutMeta(DeleteMarker(key, time, NewVersionId(seen, uuid))))] + RemoveData(replaced)
    else if Pointer(key) !in w.table || faults.commit then
      []
    else
      [Commit(DeleteMeta(key, ""))] + RemoveEach(KeyVersions(w.table, key))
  }

  /** The current version expires only if it is still the one the sweep saw, and a
      delete marker only if it is the last version left. */
  ghost predicate ExpiresCurrent(t: Table, key: Bytes, versionId: Bytes, modified: int) {
    && Pointer(key) in t
    && t[Pointer(key)].versionId == versionId
    && t[Pointer(key)].modified == modified
    && (t[Pointer(key)].isDeleteMarker ==> forall info :: info in KeyVersions(t, key) ==> info.versionId == versionId)
  }

  /** When a version without a recorded displacement was displaced, at the
      earliest: the first modification after its own. */
  function FirstSuccessor(versions: seq<ObjectInfo>, modified: int): Option<int> {
    if versions == [] then
      None
    else
      var later := FirstSuccessor(versions[..|versions| - 1], modified);
      var m := versions[|versions| - 1].modified;
      if m > modified && (later.None? || m < later.value) then Some(m) else later
  }

  function NoncurrentSince(t: Table, info: ObjectInfo): Option<int> {
    if info.noncurrentSince.Some? then info.noncurrentSince
    else FirstSuccessor(KeyVersions(t, info.key), info.modified)
  }

  predicate ExpiresNoncurrent(t: Table, key: Bytes, versionId: Bytes, now: int, cutoff: int) {
    var candidate := Lookup(t, key, versionId);
    && candidate.Some?
    && !candidate.value.isLatest
    && NoncurrentSince(t, candidate.value).Some?
    && now - NoncurrentSince(t, candidate.value).value > cutoff
  }

  /** One request to the engine, with the identifiers it draws. */
  datatype Request =
    | PutObject(key: Bytes, data: Bytes, attributes: Bytes, time: int, uuid: Bytes, blobId: Bytes, copyId: Bytes, faults: Faults)
    | DeleteRequest(key: Bytes, versionId: Bytes, time: int, uuid: Bytes, copyId: Bytes, faults: Faults)
    | ExpireCurrent(key: Bytes, versionId: Bytes, modified: int, time: int, uuid: Bytes, copyId: Bytes, faults: Faults)
    | ExpireNoncurrent(key: Bytes, versionId: Bytes, now: int, cutoff: int, copyId: Bytes, faults: Faults)
    | SetVersioning(requested: Option<Status>)

  function NewObject(status: Status, key: Bytes, data: Bytes, attributes: Bytes, time: int, uuid: Bytes, blobId: Bytes): ObjectInfo {
    ObjectInfo(key, |data|, Digest(data), attributes, time, NewVersionId(status, uuid), false, None, false, blobId)
  }

  /** A bucket can be enabled or suspended but never returned to unversioned. The
      request may name no valid status at all. */
  function Reconfigure(requested: Option<Status>): seq<Step> {
    if requested.None? || requested.value == Unversioned then [] else [Configure(requested.value)]
  }

  ghost function Plan(w: World, r: Request): seq<Step> {
    match r
    case PutObject(key, data, attributes, time, uuid, blobId, copyId, faults) =>
      CommitObject(w, NewObject(w.status, key, data, attributes, time, uuid, blobId), data, copyId, faults)
    case DeleteRequest(key, versionId, time, uuid, copyId, faults) =>
      DeleteObject(w, w.status, key, versionId, time, uuid, copyId, faults)
    case ExpireCurrent(key, versionId, modified, time, uuid, copyId, faults) =>
      if ExpiresCurrent(w.table, key, versionId, modified) then
        DeleteObject(w, w.status, key, if w.table[Pointer(key)].isDeleteMarker then versionId else "", time, uuid, copyId, faults)
      else
        []
    case ExpireNoncurrent(key, versionId, now, cutoff, copyId, faults) =>
      if ExpiresNoncurrent(w.table, key, versionId, now, cutoff) then
        DeleteObject(w, w.status, key, versionId, now, "", copyId, faults)
      else
        []
    case SetVersioning(requested) =>
      Reconfigure(requested)
  }

  /** A file renamed into place but not made durable is left behind. */
  predicate CleansUp(r: Request) {
    r.PutObject? ==> !r.faults.publish.NotSynced?
  }

  // ------------------------------------------------------------------- safety

  ghost predicate HasData(disk: Disk, info: ObjectInfo) {
    && DataPath(info) in disk
    && |disk[DataPath(info)]| == info.size
    && Digest(disk[DataPath(info)]) == info.etag
  }

  /** A stored version that is not a delete marker. */
  predicate HoldsData(t: Table, rk: RecordKey) {
    Primary(t, rk) && !t[rk].isDeleteMarker
  }

  /** Two stored versions never share a data file. */
  ghost predicate DistinctFiles(t: Table) {
    forall r1, r2 :: HoldsData(t, r1) && HoldsData(t, r2) && DataPath(t[r1]) == DataPath(t[r2]) ==> r1 == r2
  }

  ghost predicate Safe(w: World) {
    && Consistent(w.table)
    && DistinctFiles(w.table)
    && forall rk :: HoldsData(w.table, rk) ==> HasData(w.disk, w.table[rk])
  }

  ghost function Referenced(t: Table): set<Path> {
    set rk | rk in t && HoldsData(t, rk) :: DataPath(t[rk])
  }

  /** Nothing is missing and nothing is left over. */
  ghost predicate Exact(w: World) {
    Safe(w) && w.disk.Keys == Referenced(w.table)
  }

  ghost predicate FreshBlob(w: World, id: Bytes) {
    id != "" && Blob(id) !in w.disk && Blob(id) !in Referenced(w.table)
  }

  ghost predicate FreshVersion(t: Table, key: Bytes, uuid: Bytes) {
    uuid != "" && uuid != "null" && Version(key, uuid) !in t
  }

  /** Identifiers drawn at random have not been used before. */
  ghost predicate Fresh(w: World, r: Request) {
    match r
    case PutObject(key, _, _, _, uuid, blobId, copyId, _) =>
      FreshVersion(w.table, key, uuid) && FreshBlob(w, blobId) && FreshBlob(w, copyId) && blobId != copyId
    case DeleteRequest(key, _, _, uuid, copyId, _) => FreshVersion(w.table, key, uuid) && FreshBlob(w, copyId)
    case ExpireCurrent(key, _, _, _, uuid, copyId, _) => FreshVersion(w.table, key, uuid) && FreshBlob(w, copyId)
    case ExpireNoncurrent(_, _, _, _, copyId, _) => FreshBlob(w, copyId)
    case SetVersioning(_) => true
  }
}
