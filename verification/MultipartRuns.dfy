/** One multipart upload under any interleaving of part uploads, re-uploads,
    completion and abort. */
module MultipartRuns {
  import opened ByteOrder
  import opened Multipart

  datatype Call =
    | Placed(info: PartInfo, data: Bytes)  // its file is in place
    | Locked(info: PartInfo, data: Bytes)
    | Loaded(info: PartInfo, data: Bytes, parts: seq<PartInfo>)
    | Committed(previous: Option<PartInfo>)
    | Leaving
    | Completing(request: seq<CompletePart>, parts: seq<PartInfo>, copied: nat, out: Bytes)

  datatype State = State(
    record: Option<seq<PartInfo>>, // the upload's stored parts; None once it is gone
    files: map<Bytes, Bytes>,
    blobIds: set<Bytes>,           // ever given out
    holder: Option<nat>,           // of the upload's lock
    calls: map<nat, Call>,
    latest: map<int, Bytes>)       // the data of the last upload recorded under each number

  datatype Action =
    | Place(id: nat, info: PartInfo, data: Bytes)
    | Lock(id: nat)
    | Load(id: nat)
    | Commit(id: nat)
    | RemovePrevious(id: nat, ok: bool)
    | Abandon(id: nat)
    | Leave(id: nat)
    | Complete(id: nat, request: seq<CompletePart>, minSize: nat)
    | Copy(id: nat)
    | Finish(id: nat, cleared: bool)
    | Abort(id: nat)

  predicate Pending(c: Call) {
    c.Placed? || c.Locked? || c.Loaded?
  }

  ghost predicate Enabled(s: State, a: Action, Md5: Bytes -> Bytes) {
    match a
    case Place(id, info, data) =>
      id !in s.calls && info.blobId !in s.blobIds && info.etag == Md5(data) && info.size == |data|
    case Lock(id) => id in s.calls && s.calls[id].Placed? && s.holder == None
    case Load(id) => id in s.calls && s.calls[id].Locked? && s.record.Some?
    case Commit(id) => id in s.calls && s.calls[id].Loaded?
    case RemovePrevious(id, _) => id in s.calls && s.calls[id].Committed?
    // A part upload that fails before its record is stored takes its file away.
    case Abandon(id) => id in s.calls && (Pending(s.calls[id]) || s.calls[id].Completing?)
    case Leave(id) => id in s.calls && s.calls[id].Leaving?
    case Complete(id, request, minSize) =>
      id !in s.calls && s.holder == None && s.record.Some? && Rejection(request, s.record.value, minSize) == None
    case Copy(id) =>
      id in s.calls && s.calls[id].Completing? && s.calls[id].copied < |s.calls[id].parts|
      && s.calls[id].parts[s.calls[id].copied].blobId in s.files
    case Finish(id, _) => id in s.calls && s.calls[id].Completing? && s.calls[id].copied == |s.calls[id].parts|
    case Abort(id) => id !in s.calls && s.holder == None
  }

  ghost function Next(s: State, a: Action, Md5: Bytes -> Bytes): State
    requires Enabled(s, a, Md5)
  {
    match a
    case Place(id, info, data) =>
      s.(files := s.files[info.blobId := data], blobIds := s.blobIds + {info.blobId}, calls := s.calls[id := Placed(info, data)])
    case Lock(id) =>
      s.(holder := Some(id), calls := s.calls[id := Locked(s.calls[id].info, s.calls[id].data)])
    case Load(id) =>
      s.(calls := s.calls[id := Loaded(s.calls[id].info, s.calls[id].data, s.record.value)])
    case Commit(id) =>
      var c := s.calls[id];
      s.(record := Some(Recorded(c.parts, c.info)), latest := s.latest[c.info.partNumber := c.data],
         calls := s.calls[id := Committed(Find(c.parts, c.info.partNumber))])
    case RemovePrevious(id, ok) =>
      var previous := s.calls[id].previous;
      s.(files := if ok && previous.Some? then s.files - {previous.value.blobId} else s.files, calls := s.calls[id := Leaving])
    case Abandon(id) =>
      s.(files := if Pending(s.calls[id]) then s.files - {s.calls[id].info.blobId} else s.files,
         holder := if s.holder == Some(id) then None else s.holder, calls := s.calls - {id})
    case Leave(id) =>
      s.(holder := None, calls := s.calls - {id})
    case Complete(id, request, minSize) =>
      RefusedExactly(request, s.record.value, minSize);
      s.(holder := Some(id), calls := s.calls[id := Completing(request, Selected(SortByNumber(request), s.record.value), 0, "")])
    case Copy(id) =>
      var c := s.calls[id];
      s.(calls := s.calls[id := c.(copied := c.copied + 1, out := c.out + s.files[c.parts[c.copied].blobId])])
    case Finish(id, cleared) =>
      var s1 := s.(holder := None, calls := s.calls - {id});
      if cleared then s1.(record := None, files := map[]) else s1
    case Abort(id) =>
      s.(record := None, files := map[])
  }

  // ---------------------------------------------------------------- invariant

  predicate DistinctBlobs(parts: seq<PartInfo>) {
    forall i, j :: 0 <= i < j < |parts| ==> parts[i].blobId != parts[j].blobId
  }

  /** A recorded part's file is in place, and holds what was last uploaded. */
  predicate PartOk(s: State, p: PartInfo) {
    && p.blobId in s.files && p.blobId in s.blobIds
    && p.size == |s.files[p.blobId]|
    && p.partNumber in s.latest && s.latest[p.partNumber] == s.files[p.blobId]
  }

  predicate RecordOk(s: State, parts: seq<PartInfo>) {
    && DistinctNumbers(parts) && DistinctBlobs(parts)
    && (forall i :: 0 <= i < |parts| ==> PartOk(s, parts[i]))
    && (forall n :: n in s.latest ==> Find(parts, n).Some?)
  }

  predicate Unrecorded(s: State, blobId: Bytes) {
    s.record.Some? ==> forall i :: 0 <= i < |s.record.value| ==> s.record.value[i].blobId != blobId
  }

  function Contents(files: map<Bytes, Bytes>, parts: seq<PartInfo>, n: nat): Bytes
    requires n <= |parts|
  {
    if n == 0 then
      ""
    else
      Contents(files, parts, n - 1) + if parts[n - 1].blobId in files then files[parts[n - 1].blobId] else ""
  }

  predicate CallOk(s: State, id: nat)
    requires id in s.calls
  {
    var c := s.calls[id];
    && (!c.Placed? ==> s.holder == Some(id))
    && (Pending(c) ==>
          && c.info.blobId in s.blobIds && Unrecorded(s, c.info.blobId) && c.info.size == |c.data|
          && (s.record.Some? ==> c.info.blobId in s.files && s.files[c.info.blobId] == c.data))
    && (c.Loaded? ==> s.record == Some(c.parts))
    && (c.Committed? && c.previous.Some? ==> c.previous.value.blobId in s.blobIds && Unrecorded(s, c.previous.value.blobId))
    && (c.Completing? ==>
          && s.record.Some? && c.copied <= |c.parts|
          && (forall k :: 0 <= k < |SortByNumber(c.request)| ==>
                Find(s.record.value, SortByNumber(c.request)[k].partNumber).Some?)
          && c.parts == Selected(SortByNumber(c.request), s.record.value)
          && StrictlyAscending(SortByNumber(c.request))
          && c.out == Contents(s.files, c.parts, c.copied))
  }

  predicate BlobOf(c: Call, blobId: Bytes) {
    || (Pending(c) && c.info.blobId == blobId)
    || (c.Committed? && c.previous.Some? && c.previous.value.blobId == blobId)
  }

  /** No two calls have the same file to put in place or take away. */
  predicate Apart(s: State, i: nat, j: nat)
    requires i in s.calls && j in s.calls
  {
    i != j ==> forall b :: b in s.blobIds ==> !(BlobOf(s.calls[i], b) && BlobOf(s.calls[j], b))
  }

  ghost predicate CallsOk(s: State) {
    && (forall id :: id in s.calls ==> CallOk(s, id))
    && (forall i, j :: i in s.calls && j in s.calls ==> Apart(s, i, j))
  }

  ghost predicate Inv(s: State) {
    (s.record.Some? ==> RecordOk(s, s.record.value)) && CallsOk(s)
  }

  lemma {:induction false} ContentsSame(files: map<Bytes, Bytes>, files': map<Bytes, Bytes>, parts: seq<PartInfo>, n: nat)
    requires n <= |parts|
    requires forall k :: 0 <= k < n ==> parts[k].blobId in files && parts[k].blobId in files' && files'[parts[k].blobId] == files[parts[k].blobId]
    ensures Contents(files', parts, n) == Contents(files, parts, n)
  {
    if n > 0 {
      ContentsSame(files, files', parts, n - 1);
    }
  }

  /** The parts a completion works on are recorded ones. */
  lemma SelectedAreRecorded(s: State, id: nat, k: nat)
    requires Inv(s) && id in s.calls && s.calls[id].Completing? && k < |s.calls[id].parts|
    ensures s.record.Some? && s.calls[id].parts[k] in s.record.value && PartOk(s, s.calls[id].parts[k])
  {
    assert CallOk(s, id);
    FindIn(s.record.value, SortByNumber(s.calls[id].request)[k].partNumber);
  }

  /** Putting in or taking away a file no record names disturbs no record and no
      completion. */
  lemma OtherFile(s: State, s1: State, blobId: Bytes)
    requires Inv(s) && Unrecorded(s, blobId)
    requires s1.record == s.record && s1.latest == s.latest && s.blobIds <= s1.blobIds
    requires s1.files - {blobId} == s.files - {blobId}
    ensures s1.record.Some? ==> RecordOk(s1, s1.record.value)
    ensures forall id :: id in s.calls && s.calls[id].Completing? ==>
              s.calls[id].copied <= |s.calls[id].parts| &&
              Contents(s1.files, s.calls[id].parts, s.calls[id].copied) == Contents(s.files, s.calls[id].parts, s.calls[id].copied)
  {
    forall b | b != blobId
      ensures (b in s1.files <==> b in s.files) && (b in s.files ==> s1.files[b] == s.files[b])
    {
      assert (b in s1.files <==> b in s1.files - {blobId}) && (b in s.files <==> b in s.files - {blobId});
    }
    if s.record.Some? {
      forall i | 0 <= i < |s.record.value|
        ensures PartOk(s1, s.record.value[i])
      {
        assert PartOk(s, s.record.value[i]);
      }
    }
    forall id | id in s.calls && s.calls[id].Completing?
      ensures s.calls[id].copied <= |s.calls[id].parts| &&
              Contents(s1.files, s.calls[id].parts, s.calls[id].copied) == Contents(s.files, s.calls[id].parts, s.calls[id].copied)
    {
      assert CallOk(s, id);
      forall k | 0 <= k < s.calls[id].copied
        ensures s.calls[id].parts[k].blobId in s.files && s.calls[id].parts[k].blobId != blobId
      {
        SelectedAreRecorded(s, id, k);
      }
      ContentsSame(s.files, s1.files, s.calls[id].parts, s.calls[id].copied);
    }
  }

  lemma PlaceKeepsInv(s: State, a: Action, Md5: Bytes -> Bytes)
    requires Inv(s) && a.Place? && Enabled(s, a, Md5)
    ensures Inv(Next(s, a, Md5))
  {
    var s1, b := Next(s, a, Md5), a.info.blobId;
    if s.record.Some? {
      forall i | 0 <= i < |s.record.value|
        ensures s.record.value[i].blobId != b
      {
        assert PartOk(s, s.record.value[i]);
      }
    }
    OtherFile(s, s1, b);
    forall id | id in s1.calls
      ensures CallOk(s1, id)
    {
      assert id in s.calls ==> CallOk(s, id);
    }
    forall i, j | i in s1.calls && j in s1.calls
      ensures Apart(s1, i, j)
    {
      assert i in s.calls ==> CallOk(s, i);
      assert j in s.calls ==> CallOk(s, j);
      assert i in s.calls && j in s.calls ==> Apart(s, i, j);
    }
  }

  lemma LockingKeepsCall(s: State, a: Action, Md5: Bytes -> Bytes, id: nat)
    requires Inv(s) && (a.Lock? || a.Load? || a.Leave? || a.Complete?) && Enabled(s, a, Md5) && id in Next(s, a, Md5).calls
    ensures CallOk(Next(s, a, Md5), id)
  {
    if a.Complete? {
      RefusedExactly(a.request, s.record.value, a.minSize);
    }
    assert a.id in s.calls ==> CallOk(s, a.id);
    assert id in s.calls ==> CallOk(s, id);
  }

  /** Lock, Load, Leave and Complete change neither files nor the record. */
  lemma LockingKeepsInv(s: State, a: Action, Md5: Bytes -> Bytes)
    requires Inv(s) && (a.Lock? || a.Load? || a.Leave? || a.Complete?) && Enabled(s, a, Md5)
    ensures Inv(Next(s, a, Md5))
  {
    var s1 := Next(s, a, Md5);
    OtherFileSame(s, s1);
    forall id | id in s1.calls
      ensures CallOk(s1, id)
    {
      LockingKeepsCall(s, a, Md5, id);
    }
    forall i, j | i in s1.calls && j in s1.calls
      ensures Apart(s1, i, j)
    {
      assert i in s.calls && j in s.calls ==> Apart(s, i, j);
    }
  }

  lemma RemovalKeepsInv(s: State, a: Action, Md5: Bytes -> Bytes)
    requires Inv(s) && (a.RemovePrevious? || a.Abandon?) && Enabled(s, a, Md5)
    ensures Inv(Next(s, a, Md5))
  {
    var s1, c := Next(s, a, Md5), s.calls[a.id];
    assert CallOk(s, a.id);
    var b := if Pending(c) then c.info.blobId else if c.Committed? && c.previous.Some? then c.previous.value.blobId else "";
    if s1.files == s.files {
      OtherFileSame(s, s1);
    } else {
      OtherFile(s, s1, b);
    }
    forall id | id in s1.calls
      ensures CallOk(s1, id)
    {
      assert CallOk(s, id) && Apart(s, a.id, id);
    }
    forall i, j | i in s1.calls && j in s1.calls
      ensures Apart(s1, i, j)
    {
      assert Apart(s, i, j);
    }
  }

  lemma OtherFileSame(s: State, s1: State)
    requires Inv(s) && s1.record == s.record && s1.latest == s.latest && s1.blobIds == s.blobIds && s1.files == s.files
    ensures s1.record.Some? ==> RecordOk(s1, s1.record.value)
  {
    if s.record.Some? {
      forall i | 0 <= i < |s.record.value|
        ensures PartOk(s1, s.record.value[i])
      {
        assert PartOk(s, s.record.value[i]);
      }
    }
  }

  lemma CopyKeepsCall(s: State, id: nat, Md5: Bytes -> Bytes)
    requires Inv(s) && Enabled(s, Copy(id), Md5)
    ensures CallOk(Next(s, Copy(id), Md5), id)
  {
    var s1, c := Next(s, Copy(id), Md5), s.calls[id];
    assert CallOk(s, id);
    assert s1.calls[id].out == Contents(s.files, c.parts, c.copied) + s.files[c.parts[c.copied].blobId];
  }

  lemma CopyKeepsInv(s: State, a: Action, Md5: Bytes -> Bytes)
    requires Inv(s) && a.Copy? && Enabled(s, a, Md5)
    ensures Inv(Next(s, a, Md5))
  {
    var s1 := Next(s, a, Md5);
    OtherFileSame(s, s1);
    CopyKeepsCall(s, a.id, Md5);
    forall id | id in s1.calls
      ensures CallOk(s1, id)
    {
      assert CallOk(s, id);
    }
    forall i, j | i in s1.calls && j in s1.calls
      ensures Apart(s1, i, j)
    {
      assert Apart(s, i, j);
    }
  }

  lemma EndKeepsInv(s: State, a: Action, Md5: Bytes -> Bytes)
    requires Inv(s) && (a.Finish? || a.Abort?) && Enabled(s, a, Md5)
    ensures Inv(Next(s, a, Md5))
  {
    var s1 := Next(s, a, Md5);
    if s1.record.Some? {
      OtherFileSame(s, s1);
    }
    assert a.id in s.calls ==> CallOk(s, a.id);
    forall id | id in s1.calls
      ensures CallOk(s1, id)
    {
      assert CallOk(s, id);
    }
    forall i, j | i in s1.calls && j in s1.calls
      ensures Apart(s1, i, j)
    {
      assert Apart(s, i, j);
    }
  }

  // -------------------------------------------------------------- recording parts

  lemma {:induction false} RecordedKeepsBlobs(parts: seq<PartInfo>, info: PartInfo)
    requires DistinctNumbers(parts) && DistinctBlobs(parts)
    requires forall i :: 0 <= i < |parts| ==> parts[i].blobId != info.blobId
    ensures DistinctBlobs(Recorded(parts, info))
    ensures Find(parts, info.partNumber).Some? ==>
              forall p :: p in Recorded(parts, info) ==> p.blobId != Find(parts, info.partNumber).value.blobId
  {
    if parts != [] {
      RecordedKeepsBlobs(parts[1..], info);
      RecordedKeepsDistinct(parts[1..], info);
      RecordedKeepsDistinct(parts, info);
      FindIn(parts, info.partNumber);
      var r := Recorded(parts, info);
      forall p | p in parts[1..]
        ensures p.blobId != parts[0].blobId && p.blobId != info.blobId
      {
        var k :| 0 <= k < |parts[1..]| && parts[1..][k] == p;
      }
    }
  }

  lemma CommitKeepsRecord(s: State, id: nat, Md5: Bytes -> Bytes)
    requires Inv(s) && Enabled(s, Commit(id), Md5)
    ensures
      var s1 := Next(s, Commit(id), Md5);
      s1.record.Some? && RecordOk(s1, s1.record.value)
  {
    var s1, c := Next(s, Commit(id), Md5), s.calls[id];
    assert CallOk(s, id);
    var r := Recorded(c.parts, c.info);
    RecordedKeepsDistinct(c.parts, c.info);
    RecordedKeepsBlobs(c.parts, c.info);
    forall i | 0 <= i < |r|
      ensures PartOk(s1, r[i])
    {
      assert r[i] in r;
      if r[i] != c.info {
        var k :| 0 <= k < |c.parts| && c.parts[k] == r[i];
        assert PartOk(s, c.parts[k]);
      }
    }
    forall n | n in s1.latest
      ensures Find(r, n).Some?
    {
      RecordedFinds(c.parts, c.info, n);
    }
  }

  lemma CommitKeepsCalls(s: State, id: nat, Md5: Bytes -> Bytes)
    requires Inv(s) && Enabled(s, Commit(id), Md5)
    ensures CallsOk(Next(s, Commit(id), Md5))
  {
    var s1, c := Next(s, Commit(id), Md5), s.calls[id];
    assert CallOk(s, id);
    var r, previous := Recorded(c.parts, c.info), Find(c.parts, c.info.partNumber);
    RecordedKeepsDistinct(c.parts, c.info);
    RecordedKeepsBlobs(c.parts, c.info);
    FindIn(c.parts, c.info.partNumber);
    if previous.Some? {
      var k :| 0 <= k < |c.parts| && c.parts[k] == previous.value;
      assert PartOk(s, c.parts[k]);
    }
    forall b | Unrecorded(s, b) && b != c.info.blobId
      ensures Unrecorded(s1, b)
    {
      forall i | 0 <= i < |r|
        ensures r[i].blobId != b
      {
        assert r[i] in r;
        if r[i] != c.info {
          var k :| 0 <= k < |c.parts| && c.parts[k] == r[i];
        }
      }
    }
    assert previous.Some? ==> Unrecorded(s1, previous.value.blobId) by {
      assert forall i :: 0 <= i < |r| ==> r[i] in r;
    }
    forall i | i in s1.calls
      ensures CallOk(s1, i)
    {
      assert CallOk(s, i) && Apart(s, id, i);
    }
    CommitKeepsApart(s, id, Md5);
  }

  lemma CommitKeepsApart(s: State, id: nat, Md5: Bytes -> Bytes)
    requires Inv(s) && Enabled(s, Commit(id), Md5)
    ensures
      var s1 := Next(s, Commit(id), Md5);
      forall i, j :: i in s1.calls && j in s1.calls ==> Apart(s1, i, j)
  {
    var s1, c := Next(s, Commit(id), Md5), s.calls[id];
    assert CallOk(s, id);
    FindIn(c.parts, c.info.partNumber);
    forall i, j | i in s1.calls && j in s1.calls
      ensures Apart(s1, i, j)
    {
      assert Apart(s, i, j) && CallOk(s, i) && CallOk(s, j);
    }
  }

  lemma StepKeepsInv(s: State, a: Action, Md5: Bytes -> Bytes)
    requires Inv(s) && Enabled(s, a, Md5)
    ensures Inv(Next(s, a, Md5))
  {
    match a
    case Place(_, _, _) => PlaceKeepsInv(s, a, Md5);
    case Commit(id) =>
      CommitKeepsRecord(s, id, Md5);
      CommitKeepsCalls(s, id, Md5);
    case RemovePrevious(_, _) => RemovalKeepsInv(s, a, Md5);
    case Abandon(_) => RemovalKeepsInv(s, a, Md5);
    case Copy(_) => CopyKeepsInv(s, a, Md5);
    case Finish(_, _) => EndKeepsInv(s, a, Md5);
    case Abort(_) => EndKeepsInv(s, a, Md5);
    case _ => LockingKeepsInv(s, a, Md5);
  }

  ghost predicate Runs(s: State, actions: seq<Action>, Md5: Bytes -> Bytes)
    decreases |actions|
  {
    actions == [] || (Enabled(s, actions[0], Md5) && Runs(Next(s, actions[0], Md5), actions[1..], Md5))
  }

  ghost function Final(s: State, actions: seq<Action>, Md5: Bytes -> Bytes): State
    requires Runs(s, actions, Md5)
    decreases |actions|
  {
    if actions == [] then s else Final(Next(s, actions[0], Md5), actions[1..], Md5)
  }

  /** An upload as it is created. */
  const CREATED := State(Some([]), map[], {}, None, map[], map[])

  lemma {:induction false} RunKeepsInv(s: State, actions: seq<Action>, Md5: Bytes -> Bytes)
    requires Inv(s) && Runs(s, actions, Md5)
    ensures Inv(Final(s, actions, Md5))
    decreases |actions|
  {
    if actions != [] {
      StepKeepsInv(s, actions[0], Md5);
      RunKeepsInv(Next(s, actions[0], Md5), actions[1..], Md5);
    }
  }

  /** No record is lost: while the upload is there, every part number some call
      recorded is recorded with the data of the last such call, and that data is in
      place. */
  lemma NoPartIsLost(actions: seq<Action>, number: int, Md5: Bytes -> Bytes)
    requires Runs(CREATED, actions, Md5)
    ensures
      var s := Final(CREATED, actions, Md5);
      s.record.Some? ==>
        (&& (number in s.latest <==> Find(s.record.value, number).Some?)
         && (number in s.latest ==>
               var p := Find(s.record.value, number).value;
               && p.partNumber == number && p.blobId in s.files && s.files[p.blobId] == s.latest[number]
               && p.size == |s.latest[number]|))
  {
    RunKeepsInv(CREATED, actions, Md5);
    var s := Final(CREATED, actions, Md5);
    if s.record.Some? {
      FindIn(s.record.value, number);
      if Find(s.record.value, number).Some? {
        var i :| 0 <= i < |s.record.value| && s.record.value[i] == Find(s.record.value, number).value;
        assert PartOk(s, s.record.value[i]);
      }
    }
  }

  /** The data of some part numbers, one after the other. */
  function Joined(latest: map<int, Bytes>, parts: seq<CompletePart>, n: nat): Bytes
    requires n <= |parts|
  {
    if n == 0 then
      ""
    else
      Joined(latest, parts, n - 1) + if parts[n - 1].partNumber in latest then latest[parts[n - 1].partNumber] else ""
  }

  function TotalSize(parts: seq<PartInfo>): nat {
    if parts == [] then 0 else TotalSize(parts[..|parts| - 1]) + parts[|parts| - 1].size
  }

  /** The file of a part listed holds the data last recorded under its number. */
  lemma NextIsJoined(s: State, id: nat, k: nat)
    requires Inv(s) && id in s.calls && s.calls[id].Completing? && k < |s.calls[id].parts|
    ensures
      var part, number := s.calls[id].parts[k], SortByNumber(s.calls[id].request)[k].partNumber;
      && k < |SortByNumber(s.calls[id].request)|
      && part.blobId in s.files && number in s.latest
      && s.files[part.blobId] == s.latest[number] && |s.files[part.blobId]| == part.size
  {
    assert CallOk(s, id);
    SelectedAreRecorded(s, id, k);
    FindIn(s.record.value, SortByNumber(s.calls[id].request)[k].partNumber);
  }

  lemma {:induction false} CopiedIsJoined(s: State, id: nat, n: nat)
    requires Inv(s) && id in s.calls && s.calls[id].Completing? && n <= |s.calls[id].parts|
    ensures n <= |SortByNumber(s.calls[id].request)|
    ensures Contents(s.files, s.calls[id].parts, n) == Joined(s.latest, SortByNumber(s.calls[id].request), n)
    ensures |Contents(s.files, s.calls[id].parts, n)| == TotalSize(s.calls[id].parts[..n])
  {
    var c := s.calls[id];
    assert CallOk(s, id);
    if n > 0 {
      CopiedIsJoined(s, id, n - 1);
      NextIsJoined(s, id, n - 1);
      assert c.parts[..n][..n - 1] == c.parts[..n - 1];
    }
  }

  /** A completed upload is the concatenation, in strictly ascending part number, of
      the latest recorded data of each part listed, and as long as their sizes say,
      whatever else went on. */
  lemma CompletedIsConcatenation(actions: seq<Action>, id: nat, cleared: bool, Md5: Bytes -> Bytes)
    requires Runs(CREATED, actions, Md5) && Enabled(Final(CREATED, actions, Md5), Finish(id, cleared), Md5)
    ensures
      var s := Final(CREATED, actions, Md5);
      var c := s.calls[id];
      var listed := SortByNumber(c.request);
      && StrictlyAscending(listed) && multiset(listed) == multiset(c.request)
      && (forall k :: 0 <= k < |listed| ==> listed[k].partNumber in s.latest)
      && c.out == Joined(s.latest, listed, |listed|) && |c.out| == TotalSize(c.parts)
  {
    RunKeepsInv(CREATED, actions, Md5);
    var s := Final(CREATED, actions, Md5);
    var c := s.calls[id];
    assert CallOk(s, id);
    CopiedIsJoined(s, id, c.copied);
    assert c.parts[..c.copied] == c.parts;
    forall k | 0 <= k < |c.parts|
      ensures SortByNumber(c.request)[k].partNumber in s.latest
    {
      SelectedAreRecorded(s, id, k);
      FindIn(s.record.value, SortByNumber(c.request)[k].partNumber);
    }
  }
}
