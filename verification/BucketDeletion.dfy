/** Deleting a bucket against writers of it: the bucket's lock, taken shared by
    commits and exclusively by creation and deletion, in every interleaving. */
module BucketDeletion {
  import opened ByteOrder
  import T = LockTable

  /** What a bucket holds. An object stands for a version that is not a delete
      marker, named by its blob ID, as its data file is. */
  datatype Bucket = Bucket(objects: set<Bytes>, markers: set<Bytes>, uploads: set<Bytes>, files: set<Bytes>)

  datatype Op =
    | CreateBucket(bucket: Bytes)
    | DeleteBucket(bucket: Bytes)
    | PutObject(bucket: Bytes, name: Bytes)
    | CreateUpload(bucket: Bytes, name: Bytes)

  /** How far a call has come. `Found`: the bucket is (or, for a creation, is not)
      there. `Checked`: a deletion found it empty. `Prepared`: files are in place, or
      gone. */
  datatype Stage = Entering | Entered | Found | Checked | Prepared | Ended(ok: bool)

  datatype Call = Call(op: Op, stage: Stage)

  datatype State = State(locks: T.Locks, buckets: map<Bytes, Bucket>, calls: map<nat, Call>, blobIds: set<Bytes>)

  datatype Action =
    | Begin(id: nat, op: Op)
    | Enter(id: nat)
    | Find(id: nat)
    | Check(id: nat)
    | Prepare(id: nat)
    | Commit(id: nat)
    | Fail(id: nat)
    | Leave(id: nat)
    | Forget(id: nat)
    // Calls that do not take the bucket's lock.
    | InsertMarker(bucket: Bytes, marker: Bytes)
    | RemoveObject(bucket: Bytes, name: Bytes)
    | RemoveMarker(bucket: Bytes, marker: Bytes)
    | EndUpload(bucket: Bytes, upload: Bytes)

  predicate Exclusive(op: Op) {
    op.CreateBucket? || op.DeleteBucket?
  }

  predicate IsEmpty(b: Bucket) {
    b.objects == {} && b.markers == {} && b.uploads == {}
  }

  predicate Inside(stage: Stage) {
    !stage.Entering?
  }

  predicate At(s: State, id: nat, stage: Stage) {
    id in s.calls && s.calls[id].stage == stage
  }

  predicate Enabled(s: State, a: Action) {
    match a
    // Every put makes a blob ID that was never used before.
    case Begin(id, op) => id !in s.calls && id !in s.locks.callers && (op.PutObject? ==> op.name !in s.blobIds)
    case Enter(id) => At(s, id, Entering) && T.Enabled(s.locks, T.Acquire(id))
    case Find(id) => At(s, id, Entered)
    case Check(id) => At(s, id, Found)
    case Prepare(id) => At(s, id, Checked) && (!s.calls[id].op.CreateBucket? ==> s.calls[id].op.bucket in s.buckets)
    case Commit(id) => At(s, id, Prepared) && (!s.calls[id].op.CreateBucket? ==> s.calls[id].op.bucket in s.buckets)
    case Fail(id) => id in s.calls && Inside(s.calls[id].stage) && !s.calls[id].stage.Ended?
    case Leave(id) => id in s.calls && s.calls[id].stage.Ended? && T.Enabled(s.locks, T.Release(id))
    case Forget(id) => T.Enabled(s.locks, T.Drop(id))
    case InsertMarker(bucket, _) => bucket in s.buckets
    case RemoveObject(bucket, name) => bucket in s.buckets && name in s.buckets[bucket].objects
    case RemoveMarker(bucket, _) => bucket in s.buckets
    case EndUpload(bucket, _) => bucket in s.buckets
  }

  function Staged(s: State, id: nat, stage: Stage): State
    requires id in s.calls
  {
    s.(calls := s.calls[id := s.calls[id].(stage := stage)])
  }

  function AfterPrepare(op: Op, b: Bucket): Bucket {
    match op
    case DeleteBucket(_) => b.(files := {})
    case PutObject(_, name) => b.(files := b.files + {name})
    case _ => b
  }

  function AfterCommit(op: Op, buckets: map<Bytes, Bucket>): map<Bytes, Bucket>
    requires !op.CreateBucket? ==> op.bucket in buckets
  {
    match op
    case CreateBucket(bucket) => buckets[bucket := Bucket({}, {}, {}, {})]
    case DeleteBucket(bucket) => buckets - {bucket}
    case PutObject(bucket, name) => buckets[bucket := buckets[bucket].(objects := buckets[bucket].objects + {name})]
    case CreateUpload(bucket, name) => buckets[bucket := buckets[bucket].(uploads := buckets[bucket].uploads + {name})]
  }

  function Next(s: State, a: Action): State
    requires Enabled(s, a)
  {
    match a
    case Begin(id, op) =>
      s.(locks := T.Next(s.locks, T.Register(id, op.bucket, Exclusive(op))), calls := s.calls[id := Call(op, Entering)],
          blobIds := if op.PutObject? then s.blobIds + {op.name} else s.blobIds)
    case Enter(id) =>
      Staged(s.(locks := T.Next(s.locks, T.Acquire(id))), id, Entered)
    case Find(id) =>
      var op := s.calls[id].op;
      Staged(s, id, if (op.bucket in s.buckets) != op.CreateBucket? then Found else Ended(false))
    case Check(id) =>
      var op := s.calls[id].op;
      var ok := op.DeleteBucket? ==> op.bucket in s.buckets && IsEmpty(s.buckets[op.bucket]);
      Staged(s, id, if ok then Checked else Ended(false))
    case Prepare(id) =>
      var op := s.calls[id].op;
      var s1 := Staged(s, id, Prepared);
      if op.CreateBucket? then s1 else s1.(buckets := s.buckets[op.bucket := AfterPrepare(op, s.buckets[op.bucket])])
    case Commit(id) =>
      Staged(s, id, Ended(true)).(buckets := AfterCommit(s.calls[id].op, s.buckets))
    case Fail(id) =>
      Staged(s, id, Ended(false))
    case Leave(id) =>
      s.(locks := T.Next(s.locks, T.Release(id)), calls := s.calls - {id})
    case Forget(id) =>
      s.(locks := T.Next(s.locks, T.Drop(id)))
    case InsertMarker(bucket, marker) =>
      s.(buckets := s.buckets[bucket := s.buckets[bucket].(markers := s.buckets[bucket].markers + {marker})])
    case RemoveObject(bucket, name) =>
      s.(buckets := s.buckets[bucket := s.buckets[bucket].(objects := s.buckets[bucket].objects - {name},
                                                           files := s.buckets[bucket].files - {name})])
    case RemoveMarker(bucket, marker) =>
      s.(buckets := s.buckets[bucket := s.buckets[bucket].(markers := s.buckets[bucket].markers - {marker})])
    case EndUpload(bucket, upload) =>
      s.(buckets := s.buckets[bucket := s.buckets[bucket].(uploads := s.buckets[bucket].uploads - {upload})])
  }

  /** Every call past the lock holds it, and what it found is still so. */
  predicate CallOk(s: State, id: nat)
    requires id in s.calls
  {
    var c := s.calls[id];
    var b := c.op.bucket;
    && id in s.locks.callers && s.locks.callers[id].name == b && s.locks.callers[id].exclusive == Exclusive(c.op)
    && (if Inside(c.stage) then s.locks.callers[id].Held? else s.locks.callers[id].Waiting?)
    && (c.stage.Found? || c.stage.Checked? || c.stage.Prepared? ==> (b in s.buckets) != c.op.CreateBucket?)
    && (c.op.DeleteBucket? && (c.stage.Checked? || c.stage.Prepared?) ==>
          s.buckets[b].objects == {} && s.buckets[b].uploads == {})
  }

  ghost predicate Inv(s: State) {
    T.Inv(s.locks) && forall id :: id in s.calls ==> CallOk(s, id)
  }

  /** Two calls inside the lock of one bucket are both commits. */
  lemma InsideTogether(s: State, i: nat, j: nat)
    requires Inv(s) && i != j && i in s.calls && j in s.calls
    requires Inside(s.calls[i].stage) && Inside(s.calls[j].stage) && s.calls[i].op.bucket == s.calls[j].op.bucket
    ensures !Exclusive(s.calls[i].op) && !Exclusive(s.calls[j].op)
  {
    assert CallOk(s, i) && CallOk(s, j);
    assert T.Exclusion(s.locks, i, j);
  }

  /** A step of one call inside the lock disturbs no other call. */
  lemma OthersUndisturbed(s: State, id: nat, s1: State, other: nat)
    requires Inv(s) && id in s.calls && Inside(s.calls[id].stage)
    requires s1.locks == s.locks && other in s.calls && other != id && other in s1.calls && s1.calls[other] == s.calls[other]
    requires s1.buckets - {s.calls[id].op.bucket} == s.buckets - {s.calls[id].op.bucket}
    requires !Exclusive(s.calls[id].op) ==> (s.calls[id].op.bucket in s.buckets <==> s.calls[id].op.bucket in s1.buckets)
    ensures CallOk(s1, other)
  {
    assert CallOk(s, other);
    var b := s.calls[other].op.bucket;
    if b == s.calls[id].op.bucket {
      if Inside(s.calls[other].stage) {
        InsideTogether(s, id, other);
      }
    } else {
      assert b in s1.buckets <==> b in s1.buckets - {s.calls[id].op.bucket};
      assert b in s.buckets <==> b in s.buckets - {s.calls[id].op.bucket};
    }
  }

  lemma StageKeepsInv(s: State, a: Action)
    requires Inv(s) && Enabled(s, a) && (a.Find? || a.Check? || a.Fail?)
    ensures Inv(Next(s, a))
  {
    var s1 := Next(s, a);
    assert CallOk(s, a.id);
    forall id | id in s1.calls
      ensures CallOk(s1, id)
    {
      assert CallOk(s, id);
    }
  }

  lemma PrepareKeepsInv(s: State, id: nat)
    requires Inv(s) && Enabled(s, Prepare(id))
    ensures Inv(Next(s, Prepare(id)))
  {
    var s1 := Next(s, Prepare(id));
    assert CallOk(s, id);
    assert s1.buckets.Keys == s.buckets.Keys;
    forall other | other in s1.calls
      ensures CallOk(s1, other)
    {
      assert CallOk(s, other);
    }
  }

  lemma CommitKeepsInv(s: State, id: nat)
    requires Inv(s) && Enabled(s, Commit(id))
    ensures Inv(Next(s, Commit(id)))
  {
    var s1 := Next(s, Commit(id));
    assert CallOk(s, id);
    forall other | other in s1.calls && other != id
      ensures CallOk(s1, other)
    {
      CommitKeepsOther(s, id, other);
    }
  }

  lemma CommitKeepsOther(s: State, id: nat, other: nat)
    requires Inv(s) && Enabled(s, Commit(id)) && other in s.calls && other != id
    ensures CallOk(Next(s, Commit(id)), other)
  {
    AfterCommitElsewhere(s.calls[id].op, s.buckets);
    OthersUndisturbed(s, id, Next(s, Commit(id)), other);
  }

  lemma AfterCommitElsewhere(op: Op, buckets: map<Bytes, Bucket>)
    requires !op.CreateBucket? ==> op.bucket in buckets
    ensures AfterCommit(op, buckets) - {op.bucket} == buckets - {op.bucket}
    ensures !Exclusive(op) ==> op.bucket in AfterCommit(op, buckets)
  {
  }

  lemma LockStepKeepsInv(s: State, a: Action)
    requires Inv(s) && Enabled(s, a) && (a.Begin? || a.Enter? || a.Leave? || a.Forget?)
    ensures Inv(Next(s, a))
  {
    var s1 := Next(s, a);
    match a {
      case Begin(id, op) => T.StepKeepsInv(s.locks, T.Register(id, op.bucket, Exclusive(op)));
      case Enter(id) => T.StepKeepsInv(s.locks, T.Acquire(id));
      case Leave(id) => T.StepKeepsInv(s.locks, T.Release(id));
      case Forget(id) => T.StepKeepsInv(s.locks, T.Drop(id));
    }
    forall id | id in s1.calls
      ensures CallOk(s1, id)
    {
      assert id in s.calls ==> CallOk(s, id);
    }
  }

  lemma UnlockedKeepsInv(s: State, a: Action)
    requires Inv(s) && Enabled(s, a) && (a.InsertMarker? || a.RemoveObject? || a.RemoveMarker? || a.EndUpload?)
    ensures Inv(Next(s, a))
  {
    var s1 := Next(s, a);
    forall id | id in s1.calls
      ensures CallOk(s1, id)
    {
      assert CallOk(s, id);
    }
  }

  lemma StepKeepsInv(s: State, a: Action)
    requires Inv(s) && Enabled(s, a)
    ensures Inv(Next(s, a))
  {
    if a.Find? || a.Check? || a.Fail? {
      StageKeepsInv(s, a);
    } else if a.Prepare? {
      PrepareKeepsInv(s, a.id);
    } else if a.Commit? {
      CommitKeepsInv(s, a.id);
    } else if a.Begin? || a.Enter? || a.Leave? || a.Forget? {
      LockStepKeepsInv(s, a);
    } else {
      UnlockedKeepsInv(s, a);
    }
  }

  // --------------------------------------------------------------- data files

  predicate PutOk(s: State, id: nat)
    requires id in s.calls
  {
    var c := s.calls[id];
    c.op.PutObject? && !c.stage.Ended? ==>
      && c.op.name in s.blobIds
      && (c.stage.Prepared? && c.op.bucket in s.buckets ==> c.op.name in s.buckets[c.op.bucket].files)
      && (forall b :: b in s.buckets ==> c.op.name !in s.buckets[b].objects)
  }

  predicate PutsApart(s: State, i: nat, j: nat)
    requires i in s.calls && j in s.calls
  {
    var a, b := s.calls[i], s.calls[j];
    i != j && a.op.PutObject? && b.op.PutObject? && !a.stage.Ended? && !b.stage.Ended? ==> a.op.name != b.op.name
  }

  /** Every object has its data file, and nobody else writes or removes a file that
      a put has in place but not yet committed. */
  ghost predicate DataOk(s: State) {
    && (forall b :: b in s.buckets ==> s.buckets[b].objects <= s.buckets[b].files && s.buckets[b].objects <= s.blobIds)
    && (forall id :: id in s.calls ==> PutOk(s, id))
    && (forall i, j :: i in s.calls && j in s.calls ==> PutsApart(s, i, j))
  }

  lemma StepKeepsPutsApart(s: State, a: Action, i: nat, j: nat)
    requires Inv(s) && DataOk(s) && Enabled(s, a) && i in Next(s, a).calls && j in Next(s, a).calls
    ensures PutsApart(Next(s, a), i, j)
  {
    var s1 := Next(s, a);
    assert i in s.calls ==> PutOk(s, i) && s1.calls[i].op == s.calls[i].op;
    assert j in s.calls ==> PutOk(s, j) && s1.calls[j].op == s.calls[j].op;
    assert i in s.calls && j in s.calls ==> PutsApart(s, i, j);
  }

  lemma StepKeepsPutOk(s: State, a: Action, id: nat)
    requires Inv(s) && DataOk(s) && Enabled(s, a) && id in Next(s, a).calls
    ensures PutOk(Next(s, a), id)
  {
    if id in s.calls {
      assert PutOk(s, id) && CallOk(s, id);
      if a.Commit? && a.id != id {
        OtherCommits(s, a.id, id);
      } else if a.Prepare? && a.id != id {
        OtherPrepares(s, a.id, id);
      }
    }
  }

  lemma OtherCommits(s: State, other: nat, id: nat)
    requires Inv(s) && DataOk(s) && Enabled(s, Commit(other)) && id in s.calls && other != id
    ensures PutOk(Next(s, Commit(other)), id)
  {
    assert PutOk(s, id) && CallOk(s, id) && CallOk(s, other) && PutsApart(s, other, id);
    if s.calls[other].op.bucket == s.calls[id].op.bucket && Inside(s.calls[id].stage) {
      InsideTogether(s, other, id);
    }
  }

  lemma OtherPrepares(s: State, other: nat, id: nat)
    requires Inv(s) && DataOk(s) && Enabled(s, Prepare(other)) && id in s.calls && other != id
    ensures PutOk(Next(s, Prepare(other)), id)
  {
    assert PutOk(s, id) && CallOk(s, id) && CallOk(s, other);
    if s.calls[other].op.bucket == s.calls[id].op.bucket && Inside(s.calls[id].stage) {
      InsideTogether(s, other, id);
    }
  }

  lemma StepKeepsDataOk(s: State, a: Action)
    requires Inv(s) && DataOk(s) && Enabled(s, a)
    ensures DataOk(Next(s, a))
  {
    var s1 := Next(s, a);
    forall id | id in s1.calls
      ensures PutOk(s1, id)
    {
      StepKeepsPutOk(s, a, id);
    }
    forall i, j | i in s1.calls && j in s1.calls
      ensures PutsApart(s1, i, j)
    {
      StepKeepsPutsApart(s, a, i, j);
    }
    forall b | b in s1.buckets
      ensures s1.buckets[b].objects <= s1.buckets[b].files && s1.buckets[b].objects <= s1.blobIds
    {
      if a.Commit? || a.Prepare? {
        assert CallOk(s, a.id) && PutOk(s, a.id);
      }
    }
  }

  predicate Runs(s: State, actions: seq<Action>)
    decreases |actions|
  {
    actions == [] || (Enabled(s, actions[0]) && Runs(Next(s, actions[0]), actions[1..]))
  }

  function Final(s: State, actions: seq<Action>): State
    requires Runs(s, actions)
    decreases |actions|
  {
    if actions == [] then s else Final(Next(s, actions[0]), actions[1..])
  }

  lemma {:induction false} RunKeepsInv(s: State, actions: seq<Action>)
    requires Inv(s) && DataOk(s) && Runs(s, actions)
    ensures Inv(Final(s, actions)) && DataOk(Final(s, actions))
    decreases |actions|
  {
    if actions != [] {
      StepKeepsInv(s, actions[0]);
      StepKeepsDataOk(s, actions[0]);
      RunKeepsInv(Next(s, actions[0]), actions[1..]);
    }
  }

  predicate Starts(s: State) {
    && s.locks == T.NONE && s.calls == map[]
    && forall b :: b in s.buckets ==> s.buckets[b].objects <= s.buckets[b].files && s.buckets[b].objects <= s.blobIds
  }

  lemma StepKeepsContents(s: State, a: Action, bucket: Bytes, name: Bytes)
    requires Inv(s) && Enabled(s, a) && bucket in s.buckets
    ensures name in s.buckets[bucket].objects && a != RemoveObject(bucket, name) ==>
              bucket in Next(s, a).buckets && name in Next(s, a).buckets[bucket].objects
    ensures name in s.buckets[bucket].uploads && a != EndUpload(bucket, name) ==>
              bucket in Next(s, a).buckets && name in Next(s, a).buckets[bucket].uploads
  {
    if a.Commit? || a.Prepare? {
      assert CallOk(s, a.id);
      var b := s.calls[a.id].op.bucket;
      assert bucket != b ==> bucket in Next(s, a).buckets && Next(s, a).buckets[bucket] == s.buckets[bucket];
    }
  }

  /** In every interleaving, no step but its own removal takes a committed object,
      its data file or an upload in progress from a bucket: not even the bucket's
      deletion. */
  lemma NothingCommittedIsLost(s: State, actions: seq<Action>, a: Action, bucket: Bytes, name: Bytes)
    requires Starts(s) && Runs(s, actions) && Enabled(Final(s, actions), a) && bucket in Final(s, actions).buckets
    ensures
      var s1 := Final(s, actions);
      var s2 := Next(s1, a);
      && (name in s1.buckets[bucket].objects && a != RemoveObject(bucket, name) ==>
            bucket in s2.buckets && name in s2.buckets[bucket].objects && name in s2.buckets[bucket].files)
      && (name in s1.buckets[bucket].uploads && a != EndUpload(bucket, name) ==>
            bucket in s2.buckets && name in s2.buckets[bucket].uploads)
  {
    T.NoneIsInv();
    RunKeepsInv(s, actions);
    StepKeepsDataOk(Final(s, actions), a);
    StepKeepsContents(Final(s, actions), a, bucket, name);
  }

  /** A bucket is there until a deletion of it commits, and such a deletion found it
      without objects and uploads. */
  lemma OnlyEmptyBucketsGo(s: State, actions: seq<Action>, a: Action, bucket: Bytes)
    requires Starts(s) && Runs(s, actions) && Enabled(Final(s, actions), a)
    requires bucket in Final(s, actions).buckets && bucket !in Next(Final(s, actions), a).buckets
    ensures Final(s, actions).buckets[bucket].objects == {} && Final(s, actions).buckets[bucket].uploads == {}
    ensures a.Commit? && Final(s, actions).calls[a.id].op == DeleteBucket(bucket)
  {
    T.NoneIsInv();
    RunKeepsInv(s, actions);
    if a.Commit? {
      assert CallOk(Final(s, actions), a.id);
    }
  }

  // ------------------------------------------------------------ delete markers

  /** The markers inserted into a bucket since a deletion of it last found it empty,
      and not removed since. */
  function LateNext(s: State, a: Action, bucket: Bytes, late: set<Bytes>): set<Bytes>
    requires Enabled(s, a)
  {
    match a
    case Check(id) => if s.calls[id].op == DeleteBucket(bucket) then {} else late
    case InsertMarker(b, marker) => if b == bucket then late + {marker} else late
    case RemoveMarker(b, marker) => if b == bucket then late - {marker} else late
    case _ => late
  }

  function Late(s: State, actions: seq<Action>, bucket: Bytes, late: set<Bytes>): set<Bytes>
    requires Runs(s, actions)
    decreases |actions|
  {
    if actions == [] then late else Late(Next(s, actions[0]), actions[1..], bucket, LateNext(s, actions[0], bucket, late))
  }

  predicate PastCheck(s: State, id: nat, bucket: Bytes) {
    id in s.calls && s.calls[id].op == DeleteBucket(bucket) && (s.calls[id].stage.Checked? || s.calls[id].stage.Prepared?)
  }

  /** What a bucket holds beside what a deletion past its check found: late markers. */
  ghost predicate OnlyLate(s: State, bucket: Bytes, late: set<Bytes>) {
    forall id :: PastCheck(s, id, bucket) ==> bucket in s.buckets && s.buckets[bucket].markers == late
  }

  lemma StepKeepsOnlyLate(s: State, a: Action, bucket: Bytes, late: set<Bytes>)
    requires Inv(s) && OnlyLate(s, bucket, late) && Enabled(s, a)
    ensures OnlyLate(Next(s, a), bucket, LateNext(s, a, bucket, late))
  {
    var s1 := Next(s, a);
    forall id | PastCheck(s1, id, bucket)
      ensures bucket in s1.buckets && s1.buckets[bucket].markers == LateNext(s, a, bucket, late)
    {
      assert id in s.calls && CallOk(s, id);
      if (a.Prepare? || a.Commit? || a.Check?) && a.id != id {
        assert CallOk(s, a.id);
        if s.calls[a.id].op.bucket == bucket {
          InsideTogether(s, a.id, id);
        }
      }
      assert a == Check(id) || PastCheck(s, id, bucket);
    }
  }

  lemma {:induction false} RunKeepsOnlyLate(s: State, actions: seq<Action>, bucket: Bytes, late: set<Bytes>)
    requires Inv(s) && OnlyLate(s, bucket, late) && Runs(s, actions)
    ensures OnlyLate(Final(s, actions), bucket, Late(s, actions, bucket, late))
    decreases |actions|
  {
    if actions != [] {
      StepKeepsInv(s, actions[0]);
      StepKeepsOnlyLate(s, actions[0], bucket, late);
      RunKeepsOnlyLate(Next(s, actions[0]), actions[1..], bucket, LateNext(s, actions[0], bucket, late));
    }
  }

  /** The insertion of a delete marker takes no bucket lock. In every interleaving, a
      bucket that goes takes with it exactly the markers inserted after the check of
      its deletion and not removed since. */
  lemma LateMarkersAreLost(s: State, actions: seq<Action>, a: Action, bucket: Bytes)
    requires Starts(s) && Runs(s, actions) && Enabled(Final(s, actions), a)
    requires bucket in Final(s, actions).buckets && bucket !in Next(Final(s, actions), a).buckets
    ensures Final(s, actions).buckets[bucket].markers == Late(s, actions, bucket, {})
    ensures IsEmpty(Final(s, actions).buckets[bucket]) <==> Late(s, actions, bucket, {}) == {}
  {
    T.NoneIsInv();
    RunKeepsOnlyLate(s, actions, bucket, {});
    OnlyEmptyBucketsGo(s, actions, a, bucket);
    assert PastCheck(Final(s, actions), a.id, bucket);
  }

  /** A deletion that has got past its check. */
  lemma PassesCheck(s: State, id: nat, bucket: Bytes) returns (actions: seq<Action>)
    requires Starts(s) && bucket in s.buckets && IsEmpty(s.buckets[bucket])
    ensures Runs(s, actions) && Final(s, actions).buckets == s.buckets
    ensures id in Final(s, actions).calls && Final(s, actions).calls[id] == Call(DeleteBucket(bucket), Checked)
  {
    actions := [Begin(id, DeleteBucket(bucket)), Enter(id), Find(id), Check(id)];
    var s1 := Next(s, actions[0]);
    var s2 := Next(s1, actions[1]);
    var s3 := Next(s2, actions[2]);
    var s4 := Next(s3, actions[3]);
    assert Runs(s4, []);
    Unfolds(s3, actions[3..], s4);
    Unfolds(s2, actions[2..], s4);
    Unfolds(s1, actions[1..], s4);
    Unfolds(s, actions, s4);
  }

  lemma Unfolds(s: State, actions: seq<Action>, last: State)
    requires actions != [] && Enabled(s, actions[0])
    requires Runs(Next(s, actions[0]), actions[1..]) && Final(Next(s, actions[0]), actions[1..]) == last
    ensures Runs(s, actions) && Final(s, actions) == last
  {
  }

  /** A run in which an inserted marker goes with its bucket. */
  lemma MarkerGoesWithBucket(s: State, id: nat, bucket: Bytes, marker: Bytes) returns (actions: seq<Action>)
    requires Starts(s) && bucket in s.buckets && IsEmpty(s.buckets[bucket])
    ensures Runs(s, actions) && Enabled(Final(s, actions), InsertMarker(bucket, marker))
    ensures
      var s1 := Next(Final(s, actions), InsertMarker(bucket, marker));
      && bucket in s1.buckets && marker in s1.buckets[bucket].markers
      && Enabled(s1, Prepare(id)) && Enabled(Next(s1, Prepare(id)), Commit(id))
      && bucket !in Next(Next(s1, Prepare(id)), Commit(id)).buckets
  {
    actions := PassesCheck(s, id, bucket);
  }
}
