/** The cache of open bucket databases: handles shared by reference count, evicted
    when idle, and opened by one caller at a time for each bucket. */
module HandleCache {
  import opened ByteOrder
  import T = LockTable

  const MAX_OPEN_BUCKET_DBS := 100

  /** `closed` counts how often the handle was closed. */
  datatype Handle = Handle(bucket: Bytes, opener: nat, refCount: int, evicted: bool, closed: nat)

  /** How far a call of acquireBucketDB has come. */
  datatype Call =
    | Looking(bucket: Bytes)
    | Missing(bucket: Bytes)             // not cached at the first look
    | Waiting(bucket: Bytes)             // for the bucket's initialization lock
    | Entered(bucket: Bytes)
    | Absent(bucket: Bytes)              // nor at the second, under that lock
    | Opened(bucket: Bytes, handle: nat) // opened, not yet cached
    | Using(bucket: Bytes, handle: nat)
    | Ended(bucket: Bytes)

  datatype State = State(active: map<Bytes, nat>, handles: map<nat, Handle>, made: nat, init: T.Locks, calls: map<nat, Call>)

  datatype Action =
    | Acquire(id: nat, bucket: Bytes)
    | Look(id: nat)
    | CheckRegistry(id: nat, registered: bool)
    | EnterInit(id: nat)
    | LookAgain(id: nat)
    | Open(id: nat, ok: bool)
    | Install(id: nat, victim: Option<Bytes>)
    | Release(id: nat)
    | LeaveInit(id: nat)
    | DropInit(id: nat)
    | CloseAndRemove(bucket: Bytes)

  predicate InInit(c: Call) {
    c.Entered? || c.Absent? || c.Opened?
  }

  predicate Is(s: State, id: nat, c: Call) {
    id in s.calls && s.calls[id] == c
  }

  predicate Idle(s: State, bucket: Bytes) {
    bucket in s.active && s.active[bucket] in s.handles && s.handles[s.active[bucket]].refCount <= 0
  }

  /** The handle evictLocked picks: an idle one of another bucket, if the cache is
      full and there is one. */
  ghost predicate Evictable(s: State, keep: Bytes, victim: Option<Bytes>) {
    match victim
    case Some(v) => |s.active| >= MAX_OPEN_BUCKET_DBS && v != keep && Idle(s, v)
    case None => |s.active| < MAX_OPEN_BUCKET_DBS || forall v :: v in s.active && v != keep ==> !Idle(s, v)
  }

  ghost predicate Enabled(s: State, a: Action) {
    match a
    case Acquire(id, _) => id !in s.calls && id !in s.init.callers
    case Look(id) => id in s.calls && s.calls[id].Looking?
    case CheckRegistry(id, _) => id in s.calls && s.calls[id].Missing? && id !in s.init.callers
    case EnterInit(id) => id in s.calls && s.calls[id].Waiting? && T.Enabled(s.init, T.Acquire(id))
    case LookAgain(id) => id in s.calls && s.calls[id].Entered?
    case Open(id, _) => id in s.calls && s.calls[id].Absent?
    case Install(id, victim) =>
      id in s.calls && s.calls[id].Opened? && s.calls[id].handle in s.handles && Evictable(s, s.calls[id].bucket, victim)
    case Release(id) => id in s.calls && s.calls[id].Using? && s.calls[id].handle in s.handles
    case LeaveInit(id) => id in s.calls && (s.calls[id].Using? || s.calls[id].Ended?) && T.Enabled(s.init, T.Release(id))
    case DropInit(id) => T.Enabled(s.init, T.Drop(id))
    case CloseAndRemove(_) => true
  }

  function Close(h: Handle): Handle {
    h.(closed := h.closed + 1)
  }

  /** A cached handle gains a user; a bucket without one leads to `miss`. */
  function Taken(s: State, id: nat, bucket: Bytes, miss: Call): State {
    if bucket in s.active && s.active[bucket] in s.handles then
      var h := s.active[bucket];
      s.(handles := s.handles[h := s.handles[h].(refCount := s.handles[h].refCount + 1)],
         calls := s.calls[id := Using(bucket, h)])
    else
      s.(calls := s.calls[id := miss])
  }

  function Evicted(s: State, victim: Option<Bytes>): State {
    match victim
    case Some(v) =>
      if v in s.active && s.active[v] in s.handles then
        var h := s.active[v];
        s.(active := s.active - {v}, handles := s.handles[h := Close(s.handles[h].(evicted := true))])
      else
        s
    case None => s
  }

  ghost function Next(s: State, a: Action): State
    requires Enabled(s, a)
  {
    match a
    case Acquire(id, bucket) => s.(calls := s.calls[id := Looking(bucket)])
    case Look(id) => Taken(s, id, s.calls[id].bucket, Missing(s.calls[id].bucket))
    case CheckRegistry(id, registered) =>
      var b := s.calls[id].bucket;
      if registered then
        s.(init := T.Next(s.init, T.Register(id, b, true)), calls := s.calls[id := Waiting(b)])
      else
        s.(calls := s.calls[id := Ended(b)])
    case EnterInit(id) =>
      s.(init := T.Next(s.init, T.Acquire(id)), calls := s.calls[id := Entered(s.calls[id].bucket)])
    case LookAgain(id) => Taken(s, id, s.calls[id].bucket, Absent(s.calls[id].bucket))
    case Open(id, ok) =>
      var b := s.calls[id].bucket;
      if ok then
        s.(handles := s.handles[s.made := Handle(b, id, 0, false, 0)], made := s.made + 1,
           calls := s.calls[id := Opened(b, s.made)])
      else
        s.(calls := s.calls[id := Ended(b)])
    case Install(id, victim) =>
      var b, h := s.calls[id].bucket, s.calls[id].handle;
      if b in s.active then
        // Another caller has cached a handle in the meantime: close this one.
        Taken(s.(handles := s.handles[h := Close(s.handles[h])]), id, b, Ended(b))
      else
        var s1 := Evicted(s, victim);
        s1.(active := s1.active[b := h], handles := s1.handles[h := s.handles[h].(refCount := 1)],
            calls := s.calls[id := Using(b, h)])
    case Release(id) =>
      var h := s.calls[id].handle;
      var handle := s.handles[h].(refCount := s.handles[h].refCount - 1);
      s.(handles := s.handles[h := if handle.refCount <= 0 && handle.evicted then Close(handle) else handle],
         calls := s.calls[id := Ended(s.calls[id].bucket)])
    case LeaveInit(id) => s.(init := T.Next(s.init, T.Release(id)))
    case DropInit(id) => s.(init := T.Next(s.init, T.Drop(id)))
    case CloseAndRemove(bucket) =>
      if bucket in s.active && s.active[bucket] in s.handles then
        var h := s.active[bucket];
        var handle := s.handles[h];
        s.(active := s.active - {bucket},
           handles := s.handles[h := if handle.refCount > 0 then handle.(evicted := true) else Close(handle)])
      else
        s
  }

  // ---------------------------------------------------------------- invariant

  function Users(s: State, h: nat): (ids: set<nat>)
    ensures forall id :: id in ids <==> id in s.calls && s.calls[id].Using? && s.calls[id].handle == h
  {
    set id | id in s.calls.Keys && s.calls[id].Using? && s.calls[id].handle == h
  }

  predicate Cached(s: State, h: nat)
    requires h in s.handles
  {
    s.handles[h].bucket in s.active && s.active[s.handles[h].bucket] == h
  }

  predicate Pending(s: State, h: nat)
    requires h in s.handles
  {
    Is(s, s.handles[h].opener, Opened(s.handles[h].bucket, h))
  }

  predicate HandleOk(s: State, h: nat)
    requires h in s.handles
  {
    var x := s.handles[h];
    && h < s.made && x.refCount == |Users(s, h)|
    && (Cached(s, h) || Pending(s, h) ==> !x.evicted && x.closed == 0)
    && (Pending(s, h) ==> !Cached(s, h) && x.refCount == 0)
    && (!Cached(s, h) && !Pending(s, h) ==> if x.refCount > 0 then x.evicted && x.closed == 0 else x.closed == 1)
  }

  predicate CallOk(s: State, id: nat)
    requires id in s.calls
  {
    var c := s.calls[id];
    && (InInit(c) ==> id in s.init.callers && s.init.callers[id].Held? && s.init.callers[id].name == c.bucket
                      && s.init.callers[id].exclusive)
    && (c.Waiting? ==> id in s.init.callers && s.init.callers[id].Waiting? && s.init.callers[id].name == c.bucket
                       && s.init.callers[id].exclusive)
    && (c.Looking? || c.Missing? ==> id !in s.init.callers)
    && (c.Absent? || c.Opened? ==> c.bucket !in s.active)
    && (c.Opened? ==> c.handle in s.handles && s.handles[c.handle].opener == id && s.handles[c.handle].bucket == c.bucket)
    && (c.Using? ==> c.handle in s.handles)
  }

  predicate CacheOk(s: State, bucket: Bytes)
    requires bucket in s.active
  {
    s.active[bucket] in s.handles && s.handles[s.active[bucket]].bucket == bucket
  }

  ghost predicate CallsOk(s: State) {
    forall id :: id in s.calls ==> CallOk(s, id)
  }

  ghost predicate HandlesOk(s: State) {
    && (forall b :: b in s.active ==> CacheOk(s, b))
    && (forall h :: h in s.handles ==> HandleOk(s, h))
  }

  ghost predicate Inv(s: State) {
    T.Inv(s.init) && CallsOk(s) && HandlesOk(s)
  }

  /** Only one caller at a time is opening the database of a bucket. */
  lemma OneOpener(s: State, i: nat, j: nat)
    requires Inv(s) && i != j && i in s.calls && j in s.calls && InInit(s.calls[i]) && InInit(s.calls[j])
    ensures s.calls[i].bucket != s.calls[j].bucket
  {
    assert CallOk(s, i) && CallOk(s, j);
    assert T.Exclusion(s.init, i, j);
  }

  predicate HoldsHandle(c: Call) {
    c.Using? || c.Opened?
  }

  /** A step that touches neither handles nor their users. */
  lemma HandlesUntouched(s: State, id: nat, s1: State, h: nat)
    requires h in s.handles && HandleOk(s, h)
    requires s1.handles == s.handles && s1.active == s.active && s1.made == s.made
    requires forall i :: i != id ==> (i in s1.calls <==> i in s.calls) && (i in s.calls ==> s1.calls[i] == s.calls[i])
    requires (id in s.calls ==> !HoldsHandle(s.calls[id])) && (id in s1.calls ==> !HoldsHandle(s1.calls[id]))
    ensures HandleOk(s1, h)
  {
    assert Users(s1, h) == Users(s, h);
  }

  lemma QuietKeepsHandles(s: State, id: nat, s1: State)
    requires HandlesOk(s)
    requires s1.handles == s.handles && s1.active == s.active && s1.made == s.made
    requires forall i :: i != id ==> (i in s1.calls <==> i in s.calls) && (i in s.calls ==> s1.calls[i] == s.calls[i])
    requires (id in s.calls ==> !HoldsHandle(s.calls[id])) && (id in s1.calls ==> !HoldsHandle(s1.calls[id]))
    ensures HandlesOk(s1)
  {
    forall b | b in s1.active
      ensures CacheOk(s1, b)
    {
      assert CacheOk(s, b);
    }
    forall h | h in s1.handles
      ensures HandleOk(s1, h)
    {
      HandlesUntouched(s, id, s1, h);
    }
  }

  lemma QuietKeepsCalls(s: State, a: Action, id: nat)
    requires CallsOk(s) && Enabled(s, a)
    requires (a.Acquire? || a.CheckRegistry? || a.EnterInit?) && id == a.id
    ensures CallsOk(Next(s, a))
  {
    var s1 := Next(s, a);
    assert id in s.calls ==> CallOk(s, id);
    forall i | i in s1.calls
      ensures CallOk(s1, i)
    {
      assert i in s.calls ==> CallOk(s, i);
    }
  }

  lemma QuietKeepsInv(s: State, a: Action, id: nat)
    requires Inv(s) && Enabled(s, a)
    requires (a.Acquire? || a.CheckRegistry? || a.EnterInit?) && id == a.id
    ensures Inv(Next(s, a))
  {
    match a {
      case CheckRegistry(_, registered) =>
        if registered {
          T.StepKeepsInv(s.init, T.Register(id, s.calls[id].bucket, true));
        }
      case EnterInit(_) => T.StepKeepsInv(s.init, T.Acquire(id));
      case _ =>
    }
    QuietKeepsCalls(s, a, id);
    QuietKeepsHandles(s, id, Next(s, a));
  }

  lemma UnlockKeepsInv(s: State, a: Action)
    requires Inv(s) && Enabled(s, a) && (a.LeaveInit? || a.DropInit?)
    ensures Inv(Next(s, a))
  {
    var s1 := Next(s, a);
    if a.LeaveInit? {
      T.StepKeepsInv(s.init, T.Release(a.id));
    } else {
      T.StepKeepsInv(s.init, T.Drop(a.id));
    }
    UnlockKeepsCalls(s, a);
    SameHandles(s, s1);
  }

  lemma UnlockKeepsCalls(s: State, a: Action)
    requires CallsOk(s) && Enabled(s, a) && (a.LeaveInit? || a.DropInit?)
    ensures CallsOk(Next(s, a))
  {
    var s1 := Next(s, a);
    forall i | i in s1.calls
      ensures CallOk(s1, i)
    {
      assert CallOk(s, i);
    }
  }

  lemma SameHandles(s: State, s1: State)
    requires HandlesOk(s)
    requires s1.handles == s.handles && s1.active == s.active && s1.made == s.made && s1.calls == s.calls
    ensures HandlesOk(s1)
  {
    forall b | b in s1.active
      ensures CacheOk(s1, b)
    {
      assert CacheOk(s, b);
    }
    forall h | h in s1.handles
      ensures HandleOk(s1, h)
    {
      assert HandleOk(s, h) && Users(s1, h) == Users(s, h);
    }
  }

  /** A cached handle gains a user. */
  lemma TakenKeepsHandles(s: State, id: nat, bucket: Bytes, miss: Call)
    requires HandlesOk(s) && id in s.calls && !HoldsHandle(s.calls[id]) && bucket in s.active
    ensures HandlesOk(Taken(s, id, bucket, miss))
  {
    var s1 := Taken(s, id, bucket, miss);
    assert CacheOk(s, bucket);
    forall c | c in s1.active
      ensures CacheOk(s1, c)
    {
      assert CacheOk(s, c);
    }
    forall h | h in s1.handles
      ensures HandleOk(s1, h)
    {
      TakenKeepsHandle(s, id, bucket, miss, h);
    }
  }

  lemma UserAdded(s: State, s1: State, id: nat, bucket: Bytes, used: nat, h: nat)
    requires id in s.calls && !s.calls[id].Using? && s1.calls == s.calls[id := Using(bucket, used)]
    ensures Users(s1, h) == if h == used then Users(s, h) + {id} else Users(s, h)
    ensures |Users(s1, h)| == |Users(s, h)| + if h == used then 1 else 0
  {
    assert Users(s1, h) == if h == used then Users(s, h) + {id} else Users(s, h);
  }

  lemma TakenKeepsHandle(s: State, id: nat, bucket: Bytes, miss: Call, h: nat)
    requires id in s.calls && !HoldsHandle(s.calls[id]) && bucket in s.active && CacheOk(s, bucket)
    requires h in s.handles && HandleOk(s, h)
    ensures HandleOk(Taken(s, id, bucket, miss), h)
  {
    UserAdded(s, Taken(s, id, bucket, miss), id, bucket, s.active[bucket], h);
  }

  /** Looking in the cache, at first or again under the initialization lock. */
  lemma LookKeepsInv(s: State, a: Action)
    requires Inv(s) && Enabled(s, a) && (a.Look? || a.LookAgain?)
    ensures Inv(Next(s, a))
  {
    var s1, id := Next(s, a), a.id;
    var b := s.calls[id].bucket;
    if b in s.active {
      assert CacheOk(s, b);
      TakenKeepsHandles(s, id, b, if a.Look? then Missing(b) else Absent(b));
    } else {
      QuietKeepsHandles(s, id, s1);
    }
    LookKeepsCalls(s, a);
  }

  lemma LookKeepsCalls(s: State, a: Action)
    requires CallsOk(s) && HandlesOk(s) && Enabled(s, a) && (a.Look? || a.LookAgain?)
    ensures CallsOk(Next(s, a))
  {
    var s1 := Next(s, a);
    var b := s.calls[a.id].bucket;
    assert b in s.active ==> CacheOk(s, b);
    forall i | i in s1.calls
      ensures CallOk(s1, i)
    {
      assert CallOk(s, i);
    }
  }

  lemma OpenKeepsHandles(s: State, id: nat)
    requires CallsOk(s) && HandlesOk(s) && Enabled(s, Open(id, true))
    ensures HandlesOk(Next(s, Open(id, true)))
  {
    var s1 := Next(s, Open(id, true));
    assert CallOk(s, id);
    forall c | c in s1.active
      ensures CacheOk(s1, c)
    {
      assert CacheOk(s, c) && HandleOk(s, s.active[c]);
    }
    forall h | h in s1.handles
      ensures HandleOk(s1, h)
    {
      forall i | i in s.calls && s.calls[i].Using?
        ensures s.calls[i].handle < s.made
      {
        assert CallOk(s, i) && HandleOk(s, s.calls[i].handle);
      }
      assert h in s.handles ==> HandleOk(s, h);
      assert Users(s1, h) == if h in s.handles && h < s.made then Users(s, h) else {};
    }
  }

  lemma OpenKeepsInv(s: State, id: nat, ok: bool)
    requires Inv(s) && Enabled(s, Open(id, ok))
    ensures Inv(Next(s, Open(id, ok)))
  {
    var s1 := Next(s, Open(id, ok));
    if ok {
      OpenKeepsHandles(s, id);
    } else {
      QuietKeepsHandles(s, id, s1);
    }
    OpenKeepsCalls(s, id, ok);
  }

  lemma OpenKeepsCalls(s: State, id: nat, ok: bool)
    requires CallsOk(s) && HandlesOk(s) && Enabled(s, Open(id, ok))
    ensures CallsOk(Next(s, Open(id, ok)))
  {
    var s1 := Next(s, Open(id, ok));
    assert CallOk(s, id);
    forall i | i in s1.calls
      ensures CallOk(s1, i)
    {
      assert CallOk(s, i);
      assert s.calls[i].Opened? ==> HandleOk(s, s.calls[i].handle);
    }
  }

  lemma ReleaseKeepsHandles(s: State, id: nat)
    requires HandlesOk(s) && Enabled(s, Release(id))
    ensures HandlesOk(Next(s, Release(id)))
  {
    var s1 := Next(s, Release(id));
    forall c | c in s1.active
      ensures CacheOk(s1, c)
    {
      assert CacheOk(s, c);
    }
    forall h | h in s1.handles
      ensures HandleOk(s1, h)
    {
      ReleaseKeepsHandle(s, id, h);
    }
  }

  lemma ReleaseKeepsHandle(s: State, id: nat, h: nat)
    requires h in s.handles && HandleOk(s, h) && Enabled(s, Release(id))
    ensures HandleOk(Next(s, Release(id)), h)
  {
    var s1, used := Next(s, Release(id)), s.calls[id].handle;
    assert h == used ==> id in Users(s, h);
    assert Users(s1, h) == if h == used then Users(s, h) - {id} else Users(s, h);
  }

  lemma ReleaseKeepsInv(s: State, id: nat)
    requires Inv(s) && Enabled(s, Release(id))
    ensures Inv(Next(s, Release(id)))
  {
    var s1 := Next(s, Release(id));
    ReleaseKeepsHandles(s, id);
    forall i | i in s1.calls
      ensures CallOk(s1, i)
    {
      assert CallOk(s, i);
    }
  }

  lemma CloseAndRemoveKeepsInv(s: State, bucket: Bytes)
    requires Inv(s)
    ensures Inv(Next(s, CloseAndRemove(bucket)))
  {
    var s1 := Next(s, CloseAndRemove(bucket));
    assert bucket in s.active ==> CacheOk(s, bucket);
    forall i | i in s1.calls
      ensures CallOk(s1, i)
    {
      assert CallOk(s, i);
    }
    forall c | c in s1.active
      ensures CacheOk(s1, c)
    {
      assert CacheOk(s, c);
    }
    forall h | h in s1.handles
      ensures HandleOk(s1, h)
    {
      assert HandleOk(s, h) && Users(s1, h) == Users(s, h);
    }
  }

  lemma EvictedKeepsInv(s: State, keep: Bytes, victim: Option<Bytes>)
    requires Inv(s) && Evictable(s, keep, victim)
    ensures Inv(Evicted(s, victim)) && Evicted(s, victim).active.Keys <= s.active.Keys
    ensures Evicted(s, victim).calls == s.calls
    ensures forall h :: h in s.handles && s.handles[h].refCount == 0 && !Cached(s, h) ==>
              h in Evicted(s, victim).handles && Evicted(s, victim).handles[h] == s.handles[h]
  {
    assert victim.Some? ==> CacheOk(s, victim.value);
    EvictedKeepsCalls(s, victim);
    EvictedKeepsHandles(s, keep, victim);
  }

  lemma EvictedKeepsCalls(s: State, victim: Option<Bytes>)
    requires CallsOk(s)
    ensures CallsOk(Evicted(s, victim))
  {
    var s1 := Evicted(s, victim);
    forall i | i in s1.calls
      ensures CallOk(s1, i)
    {
      assert CallOk(s, i);
    }
  }

  lemma EvictedKeepsHandles(s: State, keep: Bytes, victim: Option<Bytes>)
    requires HandlesOk(s) && Evictable(s, keep, victim)
    ensures HandlesOk(Evicted(s, victim))
  {
    var s1 := Evicted(s, victim);
    assert victim.Some? ==> CacheOk(s, victim.value);
    forall c | c in s1.active
      ensures CacheOk(s1, c)
    {
      assert CacheOk(s, c);
    }
    forall h | h in s1.handles
      ensures HandleOk(s1, h)
    {
      assert HandleOk(s, h) && Users(s1, h) == Users(s, h);
    }
  }

  /** The state once a newly opened handle is cached for the caller that opened it. */
  function HandleCached(s: State, id: nat): State
    requires id in s.calls && s.calls[id].Opened? && s.calls[id].handle in s.handles
  {
    var b, h := s.calls[id].bucket, s.calls[id].handle;
    s.(active := s.active[b := h], handles := s.handles[h := s.handles[h].(refCount := 1)],
       calls := s.calls[id := Using(b, h)])
  }

  lemma CachingKeepsCalls(s: State, id: nat)
    requires Inv(s) && id in s.calls && s.calls[id].Opened? && s.calls[id].handle in s.handles
    ensures CallsOk(HandleCached(s, id))
  {
    var s1 := HandleCached(s, id);
    forall i | i in s1.calls
      ensures CallOk(s1, i)
    {
      assert CallOk(s, i);
      if i != id && InInit(s.calls[i]) {
        OneOpener(s, id, i);
      }
    }
  }

  lemma CachingKeepsHandles(s: State, id: nat)
    requires CallsOk(s) && HandlesOk(s) && id in s.calls && s.calls[id].Opened? && s.calls[id].handle in s.handles
    ensures HandlesOk(HandleCached(s, id))
  {
    var s1, mine := HandleCached(s, id), s.calls[id].handle;
    assert CallOk(s, id) && HandleOk(s, mine);
    forall c | c in s1.active
      ensures CacheOk(s1, c)
    {
      assert c in s.active ==> CacheOk(s, c);
    }
    forall h | h in s1.handles
      ensures HandleOk(s1, h)
    {
      assert HandleOk(s, h);
      assert Users(s, mine) == {};
      assert Users(s1, h) == if h == mine then {id} else Users(s, h);
    }
  }

  lemma InstallKeepsInv(s: State, id: nat, victim: Option<Bytes>)
    requires Inv(s) && Enabled(s, Install(id, victim))
    ensures Inv(Next(s, Install(id, victim)))
  {
    var h := s.calls[id].handle;
    assert CallOk(s, id) && HandleOk(s, h);
    EvictedKeepsInv(s, s.calls[id].bucket, victim);
    CachingKeepsCalls(Evicted(s, victim), id);
    CachingKeepsHandles(Evicted(s, victim), id);
    assert Next(s, Install(id, victim)) == HandleCached(Evicted(s, victim), id);
  }

  lemma StepKeepsInv(s: State, a: Action)
    requires Inv(s) && Enabled(s, a)
    ensures Inv(Next(s, a))
  {
    match a
    case Look(_) => LookKeepsInv(s, a);
    case LookAgain(_) => LookKeepsInv(s, a);
    case Open(id, ok) => OpenKeepsInv(s, id, ok);
    case Install(id, victim) => InstallKeepsInv(s, id, victim);
    case Release(id) => ReleaseKeepsInv(s, id);
    case LeaveInit(_) => UnlockKeepsInv(s, a);
    case DropInit(_) => UnlockKeepsInv(s, a);
    case CloseAndRemove(bucket) => CloseAndRemoveKeepsInv(s, bucket);
    case _ => QuietKeepsInv(s, a, a.id);
  }

  ghost predicate Runs(s: State, actions: seq<Action>)
    decreases |actions|
  {
    actions == [] || (Enabled(s, actions[0]) && Runs(Next(s, actions[0]), actions[1..]))
  }

  ghost function Final(s: State, actions: seq<Action>): State
    requires Runs(s, actions)
    decreases |actions|
  {
    if actions == [] then s else Final(Next(s, actions[0]), actions[1..])
  }

  const EMPTY := State(map[], map[], 0, T.NONE, map[])

  lemma {:induction false} RunKeepsInv(s: State, actions: seq<Action>)
    requires Inv(s) && Runs(s, actions)
    ensures Inv(Final(s, actions))
    decreases |actions|
  {
    if actions != [] {
      StepKeepsInv(s, actions[0]);
      RunKeepsInv(Next(s, actions[0]), actions[1..]);
    }
  }

  /** In every interleaving of acquiring, releasing, evicting and removing, a handle
      somebody holds is open. */
  lemma HeldHandlesAreOpen(actions: seq<Action>, id: nat)
    requires Runs(EMPTY, actions) && id in Final(EMPTY, actions).calls && Final(EMPTY, actions).calls[id].Using?
    ensures
      var s := Final(EMPTY, actions);
      s.calls[id].handle in s.handles && s.handles[s.calls[id].handle].closed == 0
  {
    T.NoneIsInv();
    RunKeepsInv(EMPTY, actions);
    var s := Final(EMPTY, actions);
    assert CallOk(s, id) && HandleOk(s, s.calls[id].handle);
    assert id in Users(s, s.calls[id].handle);
  }

  /** Every handle is closed at most once, and one that is neither cached, in use
      nor about to be cached is closed: none leaks. */
  lemma ClosedExactlyOnce(actions: seq<Action>, h: nat)
    requires Runs(EMPTY, actions) && h in Final(EMPTY, actions).handles
    ensures
      var s := Final(EMPTY, actions);
      && s.handles[h].closed <= 1
      && (s.handles[h].closed == 1 <==> !Cached(s, h) && !Pending(s, h) && Users(s, h) == {})
  {
    T.NoneIsInv();
    RunKeepsInv(EMPTY, actions);
    var s := Final(EMPTY, actions);
    assert HandleOk(s, h);
    if Cached(s, h) || Pending(s, h) {
    } else if Users(s, h) == {} {
      assert s.handles[h].refCount == 0;
    }
  }

  /** A caller that opened a database never finds that another one was cached in the
      meantime. */
  lemma NobodyElseWins(actions: seq<Action>, id: nat)
    requires Runs(EMPTY, actions) && id in Final(EMPTY, actions).calls && Final(EMPTY, actions).calls[id].Opened?
    ensures Final(EMPTY, actions).calls[id].bucket !in Final(EMPTY, actions).active
  {
    T.NoneIsInv();
    RunKeepsInv(EMPTY, actions);
    assert CallOk(Final(EMPTY, actions), id);
  }
}
