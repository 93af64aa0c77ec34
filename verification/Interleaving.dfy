/** Requests under way at the same time. A request holds the lock of its key from
    its beginning to its end, so that requests on one key follow one another; those
    on other keys, changes of versioning and crashes fall between any two of its
    steps. */
module Interleaving {
  import opened ByteOrder
  import opened Records
  import opened Publication
  import opened CrashSafety
  import opened Locality
  import ER = EngineRuns
  import H = History

  /** A request under way: its place in the log, the steps it takes, how many it has
      taken, and the status of versioning it read when it began. */
  datatype Call = Call(request: Request, at: nat, plan: seq<Step>, taken: nat, seen: Status)

  /** The log holds every request in the order they began, with the steps taken. */
  datatype State = State(world: World, log: seq<Event>, calls: map<Bytes, Call>, owners: Owners, crashed: bool)

  datatype Action =
    | Begin(request: Request)
    | Take(key: Bytes)
    | End(key: Bytes)
    | Switch(requested: Option<Status>)
    | Crash

  /** Every blob ID is drawn once. A change of versioning holds the bucket's lock
      exclusively, which a put holds shared from where it reads the status; a delete
      does not hold it. */
  ghost predicate Enabled(s: State, a: Action) {
    match a
    case Begin(r) => !r.SetVersioning? && r.key !in s.calls && Fresh(s.world, r) && BlobIds(r) !! s.owners.Keys
    case Take(key) => key in s.calls && s.calls[key].taken < |s.calls[key].plan| && s.calls[key].at < |s.log|
    case End(key) => key in s.calls && s.calls[key].taken == |s.calls[key].plan|
    case Switch(_) => forall key :: key in s.calls ==> !s.calls[key].request.PutObject?
    case Crash => true
  }

  ghost function Next(s: State, a: Action): State
    requires Enabled(s, a)
  {
    match a
    case Begin(r) =>
      s.(log := s.log + [Event(r, Some(0))],
         calls := s.calls[r.key := Call(r, |s.log|, Plan(s.world, r), 0, s.world.status)],
         owners := s.owners + map id | id in BlobIds(r) :: r.key)
    case Take(key) =>
      var c := s.calls[key];
      s.(world := Exec(s.world, c.plan[c.taken]),
         log := s.log[c.at := Event(c.request, Some(c.taken + 1))],
         calls := s.calls[key := c.(taken := c.taken + 1)])
    case End(key) => s.(calls := s.calls - {key})
    case Switch(requested) =>
      s.(world := ExecAll(s.world, Reconfigure(requested)), log := s.log + [Event(SetVersioning(requested), None)])
    case Crash => s.(calls := map[], crashed := true)
  }

  ghost predicate Starts(s: State) {
    Safe(s.world) && TableOwned(s.owners, s.world.table) && s.log == [] && s.calls == map[] && !s.crashed
  }

  // ------------------------------------------------------------------ invariant

  predicate Touches(r: Request, key: Bytes) {
    !r.SetVersioning? && r.key == key
  }

  /** The states between the requests of the log, run one after the other. */
  type Stages = seq<World>

  /** The request leads from its stage to the next. */
  ghost predicate StageOk(owners: Owners, log: seq<Event>, stages: Stages, j: nat)
    requires j < |log| < |stages|
  {
    && stages[j + 1] == After(stages[j], log[j])
    && Fresh(stages[j], log[j].request)
    && Drawn(owners, log[j].request)
  }

  ghost predicate DoneAt(log: seq<Event>, stages: Stages, j: nat)
    requires j < |log| < |stages|
  {
    Taken(stages[j], log[j]) == Plan(stages[j], log[j].request)
  }

  /** What a request under way planned is what it would plan in the run of the log,
      and no later request of the log is on its key. */
  ghost predicate CallOk(s: State, stages: Stages, key: Bytes)
    requires key in s.calls && |s.log| < |stages|
  {
    var c := s.calls[key];
    && Touches(c.request, key)
    && c.at < |s.log| && s.log[c.at] == Event(c.request, Some(c.taken)) && c.taken <= |c.plan|
    && c.plan == Plan(stages[c.at], c.request) && c.seen == stages[c.at].status
    && (c.request.PutObject? ==> c.seen == s.world.status)
    && (forall j :: c.at < j < |s.log| ==> !Touches(s.log[j].request, key))
  }

  predicate OpenAt(s: State, j: nat)
    requires j < |s.log|
  {
    var r := s.log[j].request;
    !r.SetVersioning? && r.key in s.calls && s.calls[r.key].at == j
  }

  /** Without a crash, requests no longer under way have taken all their steps. */
  ghost predicate Settled(s: State, stages: Stages)
    requires |s.log| < |stages|
  {
    !s.crashed ==> forall j :: 0 <= j < |s.log| ==> OpenAt(s, j) || DoneAt(s.log, stages, j)
  }

  ghost predicate StagesOk(owners: Owners, log: seq<Event>, stages: Stages) {
    && |stages| == |log| + 1
    && (forall j :: 0 <= j < |stages| ==> TableOwned(owners, stages[j].table))
    && (forall j :: 0 <= j < |log| ==> StageOk(owners, log, stages, j))
  }

  /** The state is that of running the log one request after the other. */
  ghost predicate Inv(s: State, stages: Stages) {
    && StagesOk(s.owners, s.log, stages)
    && Safe(stages[0]) && s.world == stages[|s.log|]
    && (forall key :: key in s.calls ==> CallOk(s, stages, key))
    && Settled(s, stages)
  }

  // ------------------------------------------------------------- serial runs

  lemma AfterOwned(owners: Owners, w: World, e: Event)
    requires TableOwned(owners, w.table) && Drawn(owners, e.request)
    ensures TableOwned(owners, After(w, e).table)
    ensures !e.request.SetVersioning? ==> StepsOf(owners, e.request.key, Taken(w, e))
  {
    if e.request.SetVersioning? {
      var steps := Taken(w, e);
      if steps != [] {
        assert steps[1..] == [];
        assert ExecAll(w, steps) == ExecAll(Exec(w, steps[0]), []);
      }
    } else {
      PlanOf(owners, w, e.request);
      ExecOwned(owners, w, e.request.key, Taken(w, e));
    }
  }

  /** One more step of a request on another key, before or after an event. */
  lemma EventCommutes(owners: Owners, w: World, k: Bytes, a: Step, e: Event)
    requires TableOwned(owners, w.table) && StepOf(owners, k, a) && Drawn(owners, e.request) && !Touches(e.request, k)
    ensures After(Exec(w, a), e) == Exec(After(w, e), a)
    ensures Plan(Exec(w, a), e.request) == Plan(w, e.request)
    ensures Fresh(w, e.request) ==> Fresh(Exec(w, a), e.request)
  {
    if e.request.SetVersioning? {
      var steps := Taken(w, e);
      if steps != [] {
        assert steps[1..] == [];
        assert ExecAll(w, steps) == ExecAll(Exec(w, steps[0]), []);
        assert ExecAll(Exec(w, a), steps) == ExecAll(Exec(Exec(w, a), steps[0]), []);
      }
    } else {
      PlanUnmoved(owners, w, k, a, e.request);
      AfterOwned(owners, w, e);
      StepsCommute(owners, w, k, a, e.request.key, Taken(w, e));
    }
  }

  lemma OneMoreStep(w: World, r: Request, n: nat)
    requires n < |Plan(w, r)|
    ensures After(w, Event(r, Some(n + 1))) == Exec(After(w, Event(r, Some(n))), Plan(w, r)[n])
  {
    var steps := Plan(w, r);
    assert steps[..n + 1] == steps[..n] + [steps[n]];
    ExecConcat(w, steps[..n], [steps[n]]);
    assert ExecAll(ExecAll(w, steps[..n]), [steps[n]]) == ExecAll(Exec(ExecAll(w, steps[..n]), steps[n]), []);
  }

  // ----------------------------------------------------------- steps of requests

  ghost function NextStep(s: State, key: Bytes): Step
    requires Enabled(s, Take(key))
  {
    s.calls[key].plan[s.calls[key].taken]
  }

  /** The next step of a request under way touches only its key. */
  lemma NextStepOf(s: State, stages: Stages, key: Bytes)
    requires Inv(s, stages) && Enabled(s, Take(key))
    ensures StepOf(s.owners, key, NextStep(s, key))
  {
    var c := s.calls[key];
    assert CallOk(s, stages, key);
    assert StageOk(s.owners, s.log, stages, c.at);
    PlanOf(s.owners, stages[c.at], c.request);
  }

  /** The log after a request under way takes its next step. */
  function Longer(s: State, key: Bytes): seq<Event>
    requires key in s.calls && s.calls[key].at < |s.log|
  {
    s.log[s.calls[key].at := Event(s.calls[key].request, Some(s.calls[key].taken + 1))]
  }

  /** Taking a step lengthens the request's entry in the log: every stage after that
      entry is the old one with the step added. */
  ghost function Moved(s: State, stages: Stages, key: Bytes): (moved: Stages)
    requires Enabled(s, Take(key))
    ensures |moved| == |stages|
  {
    seq(|stages|, j requires 0 <= j < |stages| =>
      if j <= s.calls[key].at then stages[j] else Exec(stages[j], NextStep(s, key)))
  }

  lemma MovedShape(s: State, stages: Stages, key: Bytes, j: nat)
    requires |stages| == |s.log| + 1 && Enabled(s, Take(key)) && s.calls[key].at < j < |s.log|
    ensures Longer(s, key)[j] == s.log[j]
    ensures Moved(s, stages, key)[j] == Exec(stages[j], NextStep(s, key))
    ensures Moved(s, stages, key)[j + 1] == Exec(stages[j + 1], NextStep(s, key))
  {
  }

  /** A stage before and after a step of a request on another key. */
  lemma StageMoves(owners: Owners, x: World, y: World, e: Event, key: Bytes, a: Step)
    requires TableOwned(owners, x.table) && StepOf(owners, key, a) && !Touches(e.request, key)
    requires y == After(x, e) && Fresh(x, e.request) && Drawn(owners, e.request)
    ensures Exec(y, a) == After(Exec(x, a), e) && Fresh(Exec(x, a), e.request)
    ensures Plan(Exec(x, a), e.request) == Plan(x, e.request)
  {
    EventCommutes(owners, x, key, a, e);
  }

  lemma MovedLater(s: State, stages: Stages, key: Bytes, j: nat)
    requires Inv(s, stages) && Enabled(s, Take(key)) && s.calls[key].at < j < |s.log|
    ensures StageOk(s.owners, Longer(s, key), Moved(s, stages, key), j)
    ensures Plan(Moved(s, stages, key)[j], s.log[j].request) == Plan(stages[j], s.log[j].request)
  {
    assert CallOk(s, stages, key) && StageOk(s.owners, s.log, stages, j);
    NextStepOf(s, stages, key);
    MovedShape(s, stages, key, j);
    StageMoves(s.owners, stages[j], stages[j + 1], s.log[j], key, NextStep(s, key));
  }

  lemma MovedHere(s: State, stages: Stages, key: Bytes)
    requires Inv(s, stages) && Enabled(s, Take(key))
    ensures StageOk(s.owners, Longer(s, key), Moved(s, stages, key), s.calls[key].at)
  {
    var c := s.calls[key];
    assert CallOk(s, stages, key) && StageOk(s.owners, s.log, stages, c.at);
    OneMoreStep(stages[c.at], c.request, c.taken);
  }

  lemma MovedEarlier(s: State, stages: Stages, key: Bytes, j: nat)
    requires StagesOk(s.owners, s.log, stages) && Enabled(s, Take(key)) && j < s.calls[key].at
    ensures StageOk(s.owners, Longer(s, key), Moved(s, stages, key), j)
  {
    assert StageOk(s.owners, s.log, stages, j);
    assert Longer(s, key)[j] == s.log[j];
  }

  lemma MovedStage(s: State, stages: Stages, key: Bytes, j: nat)
    requires Inv(s, stages) && Enabled(s, Take(key)) && j < |s.log|
    ensures StageOk(s.owners, Longer(s, key), Moved(s, stages, key), j)
    ensures Plan(Moved(s, stages, key)[j], s.log[j].request) == Plan(stages[j], s.log[j].request)
  {
    if j < s.calls[key].at {
      MovedEarlier(s, stages, key, j);
    } else if j == s.calls[key].at {
      MovedHere(s, stages, key);
    } else {
      MovedLater(s, stages, key, j);
    }
  }

  lemma MovedOwned(s: State, stages: Stages, key: Bytes, j: nat)
    requires Inv(s, stages) && Enabled(s, Take(key)) && j <= |s.log|
    ensures TableOwned(s.owners, Moved(s, stages, key)[j].table) && Moved(s, stages, key)[j].status == stages[j].status
  {
    NextStepOf(s, stages, key);
    if NextStep(s, key).Commit? {
      ApplyOwned(s.owners, stages[j].table, key, NextStep(s, key).txn);
    }
  }

  lemma TakeSettled(s: State, stages: Stages, key: Bytes)
    requires Inv(s, stages) && Enabled(s, Take(key))
    ensures Settled(Next(s, Take(key)), Moved(s, stages, key))
  {
    var s1 := Next(s, Take(key));
    assert CallOk(s, stages, key);
    forall j | 0 <= j < |s1.log| && !s.crashed
      ensures OpenAt(s1, j) || DoneAt(s1.log, Moved(s, stages, key), j)
    {
      assert OpenAt(s, j) || DoneAt(s.log, stages, j);
      MovedStage(s, stages, key, j);
    }
  }

  lemma TakeKeepsCall(s: State, stages: Stages, key: Bytes, k: Bytes)
    requires Inv(s, stages) && Enabled(s, Take(key)) && k in s.calls
    ensures CallOk(Next(s, Take(key)), Moved(s, stages, key), k)
  {
    assert CallOk(s, stages, key) && CallOk(s, stages, k);
    MovedStage(s, stages, key, s.calls[k].at);
    MovedOwned(s, stages, key, s.calls[k].at);
    NextStepOf(s, stages, key);
  }

  lemma TakeKeepsInv(s: State, stages: Stages, key: Bytes)
    requires Inv(s, stages) && Enabled(s, Take(key))
    ensures Inv(Next(s, Take(key)), Moved(s, stages, key))
  {
    var s1 := Next(s, Take(key));
    assert CallOk(s, stages, key);
    TakeSettled(s, stages, key);
    forall k | k in s1.calls
      ensures CallOk(s1, Moved(s, stages, key), k)
    {
      TakeKeepsCall(s, stages, key, k);
    }
    forall j | 0 <= j < |s1.log|
      ensures StageOk(s1.owners, s1.log, Moved(s, stages, key), j)
    {
      MovedStage(s, stages, key, j);
    }
    forall j | 0 <= j <= |s1.log|
      ensures TableOwned(s1.owners, Moved(s, stages, key)[j].table)
    {
      MovedOwned(s, stages, key, j);
    }
  }

  lemma EndSettled(s: State, stages: Stages, key: Bytes)
    requires Inv(s, stages) && Enabled(s, End(key))
    ensures Settled(Next(s, End(key)), stages)
  {
    var s1, c := Next(s, End(key)), s.calls[key];
    assert CallOk(s, stages, key);
    assert c.plan[..c.taken] == c.plan;
    assert DoneAt(s.log, stages, c.at);
    forall j | 0 <= j < |s1.log| && !s.crashed
      ensures OpenAt(s1, j) || DoneAt(s1.log, stages, j)
    {
      assert OpenAt(s, j) || DoneAt(s.log, stages, j);
    }
  }

  lemma EndKeepsInv(s: State, stages: Stages, key: Bytes)
    requires Inv(s, stages) && Enabled(s, End(key))
    ensures Inv(Next(s, End(key)), stages)
  {
    var s1 := Next(s, End(key));
    forall k | k in s1.calls
      ensures CallOk(s1, stages, k)
    {
      assert CallOk(s, stages, k);
    }
    EndSettled(s, stages, key);
  }

  // -------------------------------------------------- new entries in the log

  lemma OwnersGrow(owners: Owners, more: Owners, log: seq<Event>, stages: Stages)
    requires StagesOk(owners, log, stages)
    requires forall id :: id in owners ==> id in more && more[id] == owners[id]
    ensures StagesOk(more, log, stages)
  {
    forall j | 0 <= j < |log|
      ensures StageOk(more, log, stages, j)
    {
      assert StageOk(owners, log, stages, j);
    }
    forall j | 0 <= j < |stages|
      ensures TableOwned(more, stages[j].table)
    {
      assert TableOwned(owners, stages[j].table);
    }
  }

  lemma DrawnNow(s: State, r: Request)
    requires Enabled(s, Begin(r))
    ensures Drawn(Next(s, Begin(r)).owners, r)
  {
  }

  /** A new entry at the end of the log adds a stage. */
  lemma Extends(owners: Owners, log: seq<Event>, stages: Stages, e: Event)
    requires StagesOk(owners, log, stages) && Fresh(stages[|log|], e.request) && Drawn(owners, e.request)
    ensures StagesOk(owners, log + [e], stages + [After(stages[|log|], e)])
  {
    AfterOwned(owners, stages[|log|], e);
    forall j | 0 <= j < |log|
      ensures StageOk(owners, log + [e], stages + [After(stages[|log|], e)], j)
    {
      assert StageOk(owners, log, stages, j);
    }
  }

  lemma ExtendSettled(s: State, stages: Stages, e: Event, x: World, s1: State)
    requires |stages| == |s.log| + 1 && Settled(s, stages) && s1.log == s.log + [e] && s1.crashed == s.crashed
    requires forall key :: key in s.calls ==> key in s1.calls && s1.calls[key].at == s.calls[key].at
    requires OpenAt(s1, |s.log|) || DoneAt(s1.log, stages + [x], |s.log|)
    ensures Settled(s1, stages + [x])
  {
    forall j | 0 <= j < |s.log| && !s.crashed
      ensures OpenAt(s1, j) || DoneAt(s1.log, stages + [x], j)
    {
      assert OpenAt(s, j) || DoneAt(s.log, stages, j);
    }
  }

  /** A call stays as it is when another request begins or versioning changes. */
  lemma CallExtends(s: State, stages: Stages, e: Event, x: World, s1: State, key: Bytes)
    requires key in s.calls && |stages| == |s.log| + 1 && CallOk(s, stages, key)
    requires key in s1.calls && s1.calls[key] == s.calls[key]
    requires s1.log == s.log + [e] && !Touches(e.request, key)
    requires s.calls[key].request.PutObject? ==> s1.world.status == s.world.status
    ensures CallOk(s1, stages + [x], key)
  {
  }

  lemma BeginKeepsInv(s: State, stages: Stages, r: Request)
    requires Inv(s, stages) && Enabled(s, Begin(r))
    ensures Inv(Next(s, Begin(r)), stages + [s.world])
  {
    var s1, e := Next(s, Begin(r)), Event(r, Some(0));
    NoStepYet(s.world, r);
    OwnersGrow(s.owners, s1.owners, s.log, stages);
    DrawnNow(s, r);
    Extends(s1.owners, s.log, stages, e);
    forall key | key in s1.calls
      ensures CallOk(s1, stages + [s.world], key)
    {
      if key == r.key {
        CallBegins(s, stages, r);
      } else {
        CallExtends(s, stages, e, s.world, s1, key);
      }
    }
    ExtendSettled(s, stages, e, s.world, s1);
  }

  lemma CallBegins(s: State, stages: Stages, r: Request)
    requires |stages| == |s.log| + 1 && s.world == stages[|s.log|] && Enabled(s, Begin(r))
    ensures CallOk(Next(s, Begin(r)), stages + [s.world], r.key)
  {
  }

  lemma NoStepYet(w: World, r: Request)
    ensures After(w, Event(r, Some(0))) == w
  {
    assert Plan(w, r)[..0] == [];
  }

  lemma SwitchKeepsInv(s: State, stages: Stages, requested: Option<Status>)
    requires Inv(s, stages) && Enabled(s, Switch(requested))
    ensures Inv(Next(s, Switch(requested)), stages + [Next(s, Switch(requested)).world])
  {
    var s1, e := Next(s, Switch(requested)), Event(SetVersioning(requested), None);
    Extends(s.owners, s.log, stages, e);
    forall key | key in s1.calls
      ensures CallOk(s1, stages + [s1.world], key)
    {
      CallExtends(s, stages, e, s1.world, s1, key);
    }
    ExtendSettled(s, stages, e, s1.world, s1);
  }

  lemma StepKeepsInv(s: State, stages: Stages, a: Action) returns (moved: Stages)
    requires Inv(s, stages) && Enabled(s, a)
    ensures Inv(Next(s, a), moved) && moved[0] == stages[0]
  {
    match a
    case Begin(r) =>
      BeginKeepsInv(s, stages, r);
      moved := stages + [s.world];
    case Take(key) =>
      TakeKeepsInv(s, stages, key);
      moved := Moved(s, stages, key);
    case End(key) =>
      EndKeepsInv(s, stages, key);
      moved := stages;
    case Switch(requested) =>
      SwitchKeepsInv(s, stages, requested);
      moved := stages + [Next(s, a).world];
    case Crash =>
      moved := stages;
  }

  // ------------------------------------------------------------------------ runs

  ghost predicate Runs(s: State, actions: seq<Action>)
    decreases |actions|
  {
    actions == [] || (Enabled(s, actions[0]) && Runs(Next(s, actions[0]), actions[1..]))
  }

  ghost function Final(s: State, actions: seq<Action>): State
    requires Runs(s, actions)
    decreases |actions|
  {
    if actions == [] then s else Final(Next(s, actions[0]), actions[1..])
  }

  lemma {:induction false} RunKeepsInv(s: State, stages: Stages, actions: seq<Action>) returns (last: Stages)
    requires Inv(s, stages) && Runs(s, actions)
    ensures Inv(Final(s, actions), last) && last[0] == stages[0]
    decreases |actions|
  {
    if actions == [] {
      last := stages;
    } else {
      var moved := StepKeepsInv(s, stages, actions[0]);
      last := RunKeepsInv(Next(s, actions[0]), moved, actions[1..]);
    }
  }

  lemma Reach(s: State, actions: seq<Action>) returns (stages: Stages)
    requires Starts(s) && Runs(s, actions)
    ensures Inv(Final(s, actions), stages) && stages[0] == s.world
  {
    stages := RunKeepsInv(s, [s.world], actions);
  }

  lemma {:induction false} StagesAreRun(owners: Owners, log: seq<Event>, stages: Stages)
    requires StagesOk(owners, log, stages)
    ensures RunOk(stages[0], log) && Run(stages[0], log) == stages[|log|]
    ensures (forall j :: 0 <= j < |log| ==> DoneAt(log, stages, j) && CleansUp(log[j].request)) ==> RunFinishes(stages[0], log)
    decreases |log|
  {
    if log != [] {
      assert StageOk(owners, log, stages, 0);
      forall j | 0 <= j < |log| - 1
        ensures StageOk(owners, log[1..], stages[1..], j)
        ensures DoneAt(log[1..], stages[1..], j) <==> DoneAt(log, stages, j + 1)
      {
        assert StageOk(owners, log, stages, j + 1);
      }
      StagesAreRun(owners, log[1..], stages[1..]);
      if forall j :: 0 <= j < |log| ==> DoneAt(log, stages, j) && CleansUp(log[j].request) {
        assert DoneAt(log, stages, 0);
      }
    }
  }

  /** However requests on different keys, changes of versioning and crashes are
      interleaved: the state is that of running the requests one after the other in
      the order they began, each with the steps it has taken. What holds of every
      run therefore holds of every interleaving. */
  lemma InterleavingIsSerial(s: State, actions: seq<Action>)
    requires Starts(s) && Runs(s, actions)
    ensures
      var s1 := Final(s, actions);
      RunOk(s.world, s1.log) && s1.world == Run(s.world, s1.log)
  {
    var stages := Reach(s, actions);
    StagesAreRun(Final(s, actions).owners, Final(s, actions).log, stages);
  }

  predicate AllCleanUp(log: seq<Event>) {
    forall j :: 0 <= j < |log| ==> CleansUp(log[j].request)
  }

  lemma IdleFinishes(s: State, stages: Stages)
    requires Inv(s, stages) && s.calls == map[] && !s.crashed && AllCleanUp(s.log)
    ensures RunFinishes(stages[0], s.log)
  {
    forall j | 0 <= j < |s.log|
      ensures DoneAt(s.log, stages, j)
    {
      assert OpenAt(s, j) || DoneAt(s.log, stages, j);
    }
    StagesAreRun(s.owners, s.log, stages);
  }

  /** At every point of every interleaving, so after a crash with any number of
      requests under way, every record has its data; and once no request is under
      way, if none was cut off, exactly the files that records name are left. */
  lemma InterleavingSafe(s: State, actions: seq<Action>)
    requires Starts(s) && Runs(s, actions)
    ensures
      var s1 := Final(s, actions);
      && Safe(s1.world)
      && (Exact(s.world) && s1.calls == map[] && !s1.crashed && AllCleanUp(s1.log) ==> Exact(s1.world))
  {
    var stages := Reach(s, actions);
    var s1 := Final(s, actions);
    StagesAreRun(s1.owners, s1.log, stages);
    if s1.calls == map[] && !s1.crashed && AllCleanUp(s1.log) {
      IdleFinishes(s1, stages);
    }
    RunSafe(s.world, s1.log);
  }

  /** Reads of a key during any interleaving follow the history of what the requests
      on it have committed, if the times of its writes increase. */
  lemma ReadsFollowHistory(s: State, actions: seq<Action>, h: H.Chronicle, clock: int, key: Bytes, v: Bytes)
    requires Starts(s) && Runs(s, actions) && H.Tracks(s.world.table, key, h, clock)
    requires ER.TimesIncrease(key, clock, Final(s, actions).log)
    ensures
      var s1 := Final(s, actions);
      Lookup(s1.world.table, key, v) == H.Recall(H.StepAll(h, key, ER.Trace(s.world, s1.log)), v)
  {
    InterleavingIsSerial(s, actions);
    ER.EngineFollowsHistory(s.world, h, clock, Final(s, actions).log, key, v);
  }
}
