/** Locks made on demand: a map from names to reference-counted lock objects, each
    made on first use and removed by the last to let go of it. */
module LockTable {
  import opened ByteOrder

  /** Where a caller stands: it names a lock object, holds it, or has let go of it
      but not yet given up its reference. */
  datatype Phase =
    | Waiting(name: Bytes, lock: nat, exclusive: bool)
    | Held(name: Bytes, lock: nat, exclusive: bool)
    | Released(name: Bytes, lock: nat, exclusive: bool)

  datatype Locks = Locks(table: map<Bytes, nat>, refCount: map<nat, int>, made: nat, callers: map<nat, Phase>)

  datatype Action =
    | Register(id: nat, name: Bytes, exclusive: bool)
    | Acquire(id: nat)
    | Release(id: nat)
    | Drop(id: nat)

  /** A lock object admits one exclusive holder or any number of shared ones. */
  predicate Admits(s: Locks, lock: nat, exclusive: bool) {
    forall id :: id in s.callers && s.callers[id].Held? && s.callers[id].lock == lock ==>
      !exclusive && !s.callers[id].exclusive
  }

  predicate Enabled(s: Locks, a: Action) {
    match a
    case Register(id, _, _) => id !in s.callers
    case Acquire(id) => id in s.callers && s.callers[id].Waiting? && Admits(s, s.callers[id].lock, s.callers[id].exclusive)
    case Release(id) => id in s.callers && s.callers[id].Held?
    case Drop(id) => id in s.callers && s.callers[id].Released? && s.callers[id].lock in s.refCount
  }

  function Next(s: Locks, a: Action): Locks
    requires Enabled(s, a)
  {
    match a
    case Register(id, name, exclusive) =>
      if name in s.table && s.table[name] in s.refCount then
        var l := s.table[name];
        s.(refCount := s.refCount[l := s.refCount[l] + 1], callers := s.callers[id := Waiting(name, l, exclusive)])
      else
        Locks(s.table[name := s.made], s.refCount[s.made := 1], s.made + 1, s.callers[id := Waiting(name, s.made, exclusive)])
    case Acquire(id) =>
      var c := s.callers[id];
      s.(callers := s.callers[id := Held(c.name, c.lock, c.exclusive)])
    case Release(id) =>
      var c := s.callers[id];
      s.(callers := s.callers[id := Released(c.name, c.lock, c.exclusive)])
    case Drop(id) =>
      var c := s.callers[id];
      var n := s.refCount[c.lock] - 1;
      Locks(if n == 0 then s.table - {c.name} else s.table, s.refCount[c.lock := n], s.made, s.callers - {id})
  }

  function Users(s: Locks, lock: nat): (ids: set<nat>)
    ensures forall id :: id in ids <==> id in s.callers && s.callers[id].lock == lock
  {
    set id | id in s.callers.Keys && s.callers[id].lock == lock
  }

  predicate CallerOk(s: Locks, c: Phase) {
    c.name in s.table && s.table[c.name] == c.lock && c.lock < s.made
  }

  predicate Exclusion(s: Locks, i: nat, j: nat)
    requires i in s.callers && j in s.callers
  {
    i != j && s.callers[i].Held? && s.callers[j].Held? && s.callers[i].name == s.callers[j].name ==>
      !s.callers[i].exclusive && !s.callers[j].exclusive
  }

  /** Whoever uses a lock uses the one in the table, and each is counted. */
  ghost predicate Counted(s: Locks) {
    && (forall id :: id in s.callers ==> CallerOk(s, s.callers[id]))
    && (forall name :: name in s.table ==> s.table[name] < s.made && s.table[name] in s.refCount && s.refCount[s.table[name]] > 0)
    && (forall l :: l in s.refCount ==> l < s.made && s.refCount[l] == |Users(s, l)|)
    && (forall a, b :: a in s.table && b in s.table && s.table[a] == s.table[b] ==> a == b)
  }

  /** Holders of one name's lock exclude each other. */
  ghost predicate Exclusive(s: Locks) {
    forall i, j :: i in s.callers && j in s.callers ==> Exclusion(s, i, j)
  }

  ghost predicate Inv(s: Locks) {
    Counted(s) && Exclusive(s)
  }

  lemma UsersWith(s: Locks, s1: Locks, id: nat, c: Phase, l: nat)
    requires id !in s.callers && s1.callers == s.callers[id := c]
    ensures Users(s1, l) == if l == c.lock then Users(s, l) + {id} else Users(s, l)
    ensures |Users(s1, l)| == |Users(s, l)| + if l == c.lock then 1 else 0
  {
    assert Users(s1, l) == if l == c.lock then Users(s, l) + {id} else Users(s, l);
  }

  lemma UsersSame(s: Locks, s1: Locks, id: nat, c: Phase, l: nat)
    requires id in s.callers && s1.callers == s.callers[id := c] && c.lock == s.callers[id].lock
    ensures Users(s1, l) == Users(s, l)
  {
  }

  lemma UsersWithout(s: Locks, s1: Locks, id: nat, l: nat)
    requires id in s.callers && s1.callers == s.callers - {id}
    ensures Users(s1, l) == if l == s.callers[id].lock then Users(s, l) - {id} else Users(s, l)
    ensures |Users(s1, l)| == |Users(s, l)| - if l == s.callers[id].lock then 1 else 0
  {
    var users := Users(s, l);
    assert Users(s1, l) == if l == s.callers[id].lock then users - {id} else users;
    assert l == s.callers[id].lock ==> id in users;
  }

  lemma NewLockIsUnused(s: Locks)
    requires Counted(s)
    ensures Users(s, s.made) == {}
  {
    forall id | id in s.callers
      ensures s.callers[id].lock != s.made
    {
      assert CallerOk(s, s.callers[id]);
    }
  }

  /** A caller counted in on a lock object that is in the table already. */
  lemma JoinKeepsCounted(s: Locks, id: nat, c: Phase, s1: Locks)
    requires Counted(s) && id !in s.callers && CallerOk(s, c) && c.lock in s.refCount
    requires s1 == s.(refCount := s.refCount[c.lock := s.refCount[c.lock] + 1], callers := s.callers[id := c])
    ensures Counted(s1)
  {
    forall l | l in s1.refCount
      ensures s1.refCount[l] == |Users(s1, l)|
    {
      UsersWith(s, s1, id, c, l);
    }
    forall i | i in s1.callers
      ensures CallerOk(s1, s1.callers[i])
    {
      assert i != id ==> CallerOk(s, s.callers[i]);
    }
  }

  lemma MakeCounts(s: Locks, id: nat, c: Phase, s1: Locks, l: nat)
    requires Counted(s) && id !in s.callers && c.lock == s.made
    requires s1.refCount == s.refCount[s.made := 1] && s1.callers == s.callers[id := c] && l in s1.refCount
    ensures l <= s.made && s1.refCount[l] == |Users(s1, l)|
  {
    NewLockIsUnused(s);
    UsersWith(s, s1, id, c, l);
  }

  lemma MakeKeepsCallers(s: Locks, id: nat, c: Phase, s1: Locks, i: nat)
    requires Counted(s) && id !in s.callers && c.name !in s.table && c.lock == s.made
    requires s1.table == s.table[c.name := s.made] && s1.made == s.made + 1 && s1.callers == s.callers[id := c] && i in s1.callers
    ensures CallerOk(s1, s1.callers[i])
  {
    assert i != id ==> CallerOk(s, s.callers[i]);
  }

  /** A caller that makes a new lock object. */
  lemma MakeKeepsCounted(s: Locks, id: nat, c: Phase, s1: Locks)
    requires Counted(s) && id !in s.callers && c.name !in s.table && c.lock == s.made
    requires s1 == Locks(s.table[c.name := s.made], s.refCount[s.made := 1], s.made + 1, s.callers[id := c])
    ensures Counted(s1)
  {
    forall l | l in s1.refCount
      ensures l < s1.made && s1.refCount[l] == |Users(s1, l)|
    {
      MakeCounts(s, id, c, s1, l);
    }
    forall i | i in s1.callers
      ensures CallerOk(s1, s1.callers[i])
    {
      MakeKeepsCallers(s, id, c, s1, i);
    }
  }

  lemma RegisterKeepsCounted(s: Locks, id: nat, name: Bytes, exclusive: bool)
    requires Counted(s) && id !in s.callers
    ensures Counted(Next(s, Register(id, name, exclusive)))
  {
    var s1 := Next(s, Register(id, name, exclusive));
    if name in s.table {
      JoinKeepsCounted(s, id, s1.callers[id], s1);
    } else {
      MakeKeepsCounted(s, id, s1.callers[id], s1);
    }
  }

  lemma RegisterKeepsExclusive(s: Locks, id: nat, name: Bytes, exclusive: bool)
    requires Exclusive(s) && id !in s.callers
    ensures Exclusive(Next(s, Register(id, name, exclusive)))
  {
    var s1 := Next(s, Register(id, name, exclusive));
    forall i, j | i in s1.callers && j in s1.callers
      ensures Exclusion(s1, i, j)
    {
      assert i != id && j != id ==> Exclusion(s, i, j);
    }
  }

  /** Acquiring or releasing changes one caller's phase. */
  lemma PhaseKeepsCounted(s: Locks, id: nat, c: Phase, s1: Locks)
    requires Counted(s) && id in s.callers && s1 == s.(callers := s.callers[id := c])
    requires c.name == s.callers[id].name && c.lock == s.callers[id].lock
    ensures Counted(s1)
  {
    forall l | l in s1.refCount
      ensures s1.refCount[l] == |Users(s1, l)|
    {
      UsersSame(s, s1, id, c, l);
    }
    forall i | i in s1.callers
      ensures CallerOk(s1, s1.callers[i])
    {
      assert CallerOk(s, s.callers[i]);
    }
  }

  lemma PhaseKeepsExclusive(s: Locks, id: nat, c: Phase, s1: Locks)
    requires Inv(s) && id in s.callers && s1 == s.(callers := s.callers[id := c])
    requires c.name == s.callers[id].name && c.lock == s.callers[id].lock
    requires c.Held? ==> Admits(s, c.lock, c.exclusive)
    ensures Exclusive(s1)
  {
    forall i, j | i in s1.callers && j in s1.callers
      ensures Exclusion(s1, i, j)
    {
      assert Exclusion(s, i, j);
      assert CallerOk(s, s.callers[i]) && CallerOk(s, s.callers[j]);
    }
  }

  lemma DropKeepsCounted(s: Locks, id: nat)
    requires Counted(s) && Enabled(s, Drop(id))
    ensures Counted(Next(s, Drop(id)))
  {
    var s1, c := Next(s, Drop(id)), s.callers[id];
    assert CallerOk(s, c);
    forall l | l in s1.refCount
      ensures s1.refCount[l] == |Users(s1, l)|
    {
      UsersWithout(s, s1, id, l);
    }
    UsersWithout(s, s1, id, c.lock);
    forall i | i in s1.callers
      ensures CallerOk(s1, s1.callers[i])
    {
      assert CallerOk(s, s.callers[i]);
      assert s.callers[i].lock == c.lock ==> i in Users(s1, c.lock);
    }
  }

  lemma DropKeepsExclusive(s: Locks, id: nat)
    requires Exclusive(s) && Enabled(s, Drop(id))
    ensures Exclusive(Next(s, Drop(id)))
  {
    var s1 := Next(s, Drop(id));
    forall i, j | i in s1.callers && j in s1.callers
      ensures Exclusion(s1, i, j)
    {
      assert Exclusion(s, i, j);
    }
  }

  lemma StepKeepsInv(s: Locks, a: Action)
    requires Inv(s) && Enabled(s, a)
    ensures Inv(Next(s, a))
  {
    match a
    case Register(id, name, exclusive) =>
      RegisterKeepsCounted(s, id, name, exclusive);
      RegisterKeepsExclusive(s, id, name, exclusive);
    case Acquire(id) =>
      PhaseKeepsCounted(s, id, Next(s, a).callers[id], Next(s, a));
      PhaseKeepsExclusive(s, id, Next(s, a).callers[id], Next(s, a));
    case Release(id) =>
      PhaseKeepsCounted(s, id, Next(s, a).callers[id], Next(s, a));
      PhaseKeepsExclusive(s, id, Next(s, a).callers[id], Next(s, a));
    case Drop(id) =>
      DropKeepsCounted(s, id);
      DropKeepsExclusive(s, id);
  }

  predicate Runs(s: Locks, actions: seq<Action>)
    decreases |actions|
  {
    actions == [] || (Enabled(s, actions[0]) && Runs(Next(s, actions[0]), actions[1..]))
  }

  function Final(s: Locks, actions: seq<Action>): Locks
    requires Runs(s, actions)
    decreases |actions|
  {
    if actions == [] then s else Final(Next(s, actions[0]), actions[1..])
  }

  const NONE := Locks(map[], map[], 0, map[])

  lemma {:induction false} RunKeepsInv(s: Locks, actions: seq<Action>)
    requires Inv(s) && Runs(s, actions)
    ensures Inv(Final(s, actions))
    decreases |actions|
  {
    if actions != [] {
      StepKeepsInv(s, actions[0]);
      RunKeepsInv(Next(s, actions[0]), actions[1..]);
    }
  }

  lemma NoneIsInv()
    ensures Inv(NONE)
  {
  }

  /** Two callers that hold the lock of one name hold it shared, whatever lock
      objects came and went for that name. */
  lemma MutualExclusion(actions: seq<Action>, i: nat, j: nat)
    requires Runs(NONE, actions)
    requires
      var s := Final(NONE, actions);
      i != j && i in s.callers && j in s.callers && s.callers[i].Held? && s.callers[j].Held?
      && s.callers[i].name == s.callers[j].name
    ensures
      var s := Final(NONE, actions);
      !s.callers[i].exclusive && !s.callers[j].exclusive && s.callers[i].lock == s.callers[j].lock
  {
    NoneIsInv();
    RunKeepsInv(NONE, actions);
    var s := Final(NONE, actions);
    assert Exclusion(s, i, j) && CallerOk(s, s.callers[i]) && CallerOk(s, s.callers[j]);
  }

  /** The table holds a lock object for exactly the names somebody uses. */
  lemma TableHoldsNamesInUse(actions: seq<Action>, name: Bytes)
    requires Runs(NONE, actions)
    ensures
      var s := Final(NONE, actions);
      name in s.table <==> exists id :: id in s.callers && s.callers[id].name == name
  {
    NoneIsInv();
    RunKeepsInv(NONE, actions);
    var s := Final(NONE, actions);
    if name in s.table {
      assert Users(s, s.table[name]) != {};
      var id :| id in Users(s, s.table[name]);
      assert CallerOk(s, s.callers[id]);
    }
    if id :| id in s.callers && s.callers[id].name == name {
      assert CallerOk(s, s.callers[id]);
    }
  }
}
