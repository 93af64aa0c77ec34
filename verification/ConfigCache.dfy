/** The bucket-configuration cache: reads fill it without a lock on the database,
    guarded only by a generation that every configuration write bumps. */
module ConfigCache {
  import opened ByteOrder

  type Config = Bytes

  datatype Lookup = Found(info: Config) | NoSuchBucketRecord | ReadFailed

  /** A cached entry of None records that the bucket does not exist. */
  datatype Cache = Cache(entries: map<Bytes, Option<Config>>, gen: nat)

  const MAX_BUCKET_CACHE_ENTRIES := 1024

  // ----------------------------------------------------------------- the cache

  function Filled(c: Cache, name: Bytes, found: Lookup, gen: nat): Cache {
    if c.gen != gen then
      c
    else
      var kept := if |c.entries| >= MAX_BUCKET_CACHE_ENTRIES then map[] else c.entries;
      match found
      case Found(info) => c.(entries := kept[name := Some(info)])
      case NoSuchBucketRecord => c.(entries := kept[name := None])
      case ReadFailed => c.(entries := kept)
  }

  function Invalidated(c: Cache, name: Bytes): Cache {
    Cache(c.entries - {name}, c.gen + 1)
  }

  function Stored(c: Cache, name: Bytes, info: Config): Cache {
    Cache(c.entries[name := Some(info)], c.gen + 1)
  }

  function AsLookup(entry: Option<Config>): Lookup {
    match entry
    case None => NoSuchBucketRecord
    case Some(info) => Found(info)
  }

  /** The cache as the metadata store keeps it. */
  class BucketCache {
    var bucketCache: map<Bytes, Option<Config>>
    var cacheGen: nat

    ghost function Value(): Cache
      reads this
    {
      Cache(bucketCache, cacheGen)
    }

    constructor ()
      ensures Value() == Cache(map[], 0)
    {
      bucketCache, cacheGen := map[], 0;
    }

    method Check(name: Bytes) returns (hit: Option<Lookup>)
      ensures hit == if name in bucketCache then Some(AsLookup(bucketCache[name])) else None
    {
      hit := None;
      if name in bucketCache {
        hit := Some(AsLookup(bucketCache[name]));
      }
    }

    method FillBucketCache(name: Bytes, found: Lookup, gen: nat)
      modifies this
      ensures Value() == Filled(old(Value()), name, found, gen)
      ensures gen != old(cacheGen) ==> Value() == old(Value())
      ensures forall n :: n in bucketCache && n != name ==> n in old(bucketCache) && bucketCache[n] == old(bucketCache)[n]
      ensures name in bucketCache && (name in old(bucketCache) ==> bucketCache[name] != old(bucketCache)[name]) ==>
                found == AsLookup(bucketCache[name]) && gen == old(cacheGen)
      ensures |old(bucketCache)| <= MAX_BUCKET_CACHE_ENTRIES ==> |bucketCache| <= MAX_BUCKET_CACHE_ENTRIES
    {
      if cacheGen != gen {
        return;
      }
      if |bucketCache| >= MAX_BUCKET_CACHE_ENTRIES {
        bucketCache := map[];
      }
      match found {
        case Found(info) => bucketCache := bucketCache[name := Some(info)];
        case NoSuchBucketRecord => bucketCache := bucketCache[name := None];
        case ReadFailed =>
      }
    }

    method InvalidateBucketCache(name: Bytes)
      modifies this
      ensures Value() == Invalidated(old(Value()), name)
    {
      cacheGen := cacheGen + 1;
      bucketCache := bucketCache - {name};
    }

    method StoreBucket(name: Bytes, info: Config)
      modifies this
      ensures Value() == Stored(old(Value()), name, info)
    {
      cacheGen := cacheGen + 1;
      bucketCache := bucketCache[name := Some(info)];
    }
  }

  /** The bucket registry with its cache, for calls that nothing overlaps. */
  class BucketRegistry {
    const cache: BucketCache
    var db: map<Bytes, Config>

    /** Every cached entry, a cached absence included, is what the database holds. */
    ghost predicate Valid()
      reads this, cache
    {
      forall n :: n in cache.bucketCache ==> cache.bucketCache[n] == if n in db then Some(db[n]) else None
    }

    constructor (db: map<Bytes, Config>)
      ensures Valid() && this.db == db && fresh(cache)
    {
      this.db := db;
      cache := new BucketCache();
    }

    /** Answers from the cache or else from the database, whose read may fail; what it
        read is then cached. */
    method GetBucketCached(name: Bytes, fails: bool) returns (found: Lookup)
      requires Valid()
      modifies cache
      ensures Valid()
      ensures found == if fails && name !in old(cache.bucketCache) then ReadFailed
                       else AsLookup(if name in db then Some(db[name]) else None)
    {
      var hit := cache.Check(name);
      if hit.Some? {
        return hit.value;
      }
      var gen := cache.cacheGen;
      found := if fails then ReadFailed else AsLookup(if name in db then Some(db[name]) else None);
      cache.FillBucketCache(name, found, gen);
    }

    method PutBucket(name: Bytes, info: Config, fails: bool)
      requires Valid()
      modifies this`db, cache
      ensures Valid() && db == if fails then old(db) else old(db)[name := info]
    {
      if !fails {
        db := db[name := info];
        cache.StoreBucket(name, info);
      }
    }

    /** Changes the configuration of a bucket that is there. */
    method UpdateBucketInfo(name: Bytes, mutate: Config -> Config, fails: bool) returns (ok: bool)
      requires Valid()
      modifies this`db, cache
      ensures Valid() && ok == (name in old(db) && !fails)
      ensures db == if ok then old(db)[name := mutate(old(db)[name])] else old(db)
    {
      ok := name in db && !fails;
      if ok {
        db := db[name := mutate(db[name])];
        cache.InvalidateBucketCache(name);
      }
    }

    method DeleteBucket(name: Bytes, fails: bool)
      requires Valid()
      modifies this`db, cache
      ensures Valid() && db == if fails then old(db) else old(db) - {name}
    {
      if !fails {
        db := db - {name};
        cache.InvalidateBucketCache(name);
      }
    }
  }

  // -------------------------------------------------------------- the protocol

  /** A call of GetBucketCached. `since` and `at` are indices into the bucket's past
      configurations: the one in force when the call began, and the one it read. */
  datatype Reader =
    | Started(name: Bytes, since: nat)
    | Missed(name: Bytes, since: nat)
    | Guarded(name: Bytes, since: nat, gen: nat)
    | Loaded(name: Bytes, since: nat, gen: nat, found: Lookup, at: nat)
    | Done(name: Bytes, since: nat, found: Lookup, at: nat)

  /** A writer holding its bucket's exclusive lock. */
  datatype Writer = Locked | Committed | Finished

  datatype State = State(
    cache: Cache,
    db: map<Bytes, Config>,
    past: map<Bytes, seq<Option<Config>>>, // the configurations in force so far, by bucket
    readers: map<nat, Reader>,
    writers: map<Bytes, Writer>)

  datatype Action =
    | Start(id: nat, name: Bytes)
    | CheckCache(id: nat)
    | TakeGeneration(id: nat)
    | ReadDatabase(id: nat, fails: bool)
    | Fill(id: nat)
    | Return(id: nat)
    | Lock(name: Bytes)
    | Commit(name: Bytes, config: Option<Config>)
    | Invalidate(name: Bytes)
    | Store(name: Bytes)
    | Unlock(name: Bytes)

  function InDatabase(s: State, name: Bytes): Option<Config> {
    if name in s.db then Some(s.db[name]) else None
  }

  function Past(s: State, name: Bytes): (p: seq<Option<Config>>)
    ensures p != []
  {
    if name in s.past && s.past[name] != [] then s.past[name] else [None]
  }

  /** The configuration of the last update of the bucket that has got as far as
      the cache; an update returns only after that. */
  function InForce(s: State, name: Bytes): Option<Config> {
    Past(s, name)[|Past(s, name)| - 1]
  }

  predicate Enabled(s: State, a: Action) {
    match a
    case Start(id, _) => id !in s.readers
    case CheckCache(id) => id in s.readers && s.readers[id].Started?
    case TakeGeneration(id) => id in s.readers && s.readers[id].Missed?
    // The read takes the bucket's lock shared, so no writer holds it.
    case ReadDatabase(id, _) => id in s.readers && s.readers[id].Guarded? && s.readers[id].name !in s.writers
    case Fill(id) => id in s.readers && s.readers[id].Loaded?
    case Return(id) => id in s.readers && s.readers[id].Done?
    case Lock(name) => name !in s.writers
    case Commit(name, _) => name in s.writers && s.writers[name].Locked?
    case Invalidate(name) => name in s.writers && s.writers[name].Committed?
    case Store(name) => name in s.writers && s.writers[name].Committed? && name in s.db
    // A writer whose transaction failed leaves without touching the cache.
    case Unlock(name) => name in s.writers && !s.writers[name].Committed?
  }

  function Next(s: State, a: Action): State
    requires Enabled(s, a)
  {
    match a
    case Start(id, name) =>
      s.(readers := s.readers[id := Started(name, |Past(s, name)| - 1)])
    case CheckCache(id) =>
      var r := s.readers[id];
      var next :=
        if r.name in s.cache.entries then
          Done(r.name, r.since, AsLookup(s.cache.entries[r.name]), |Past(s, r.name)| - 1)
        else
          Missed(r.name, r.since);
      s.(readers := s.readers[id := next])
    case TakeGeneration(id) =>
      s.(readers := s.readers[id := Guarded(s.readers[id].name, s.readers[id].since, s.cache.gen)])
    case ReadDatabase(id, fails) =>
      var r := s.readers[id];
      var found := if fails then ReadFailed else AsLookup(InDatabase(s, r.name));
      s.(readers := s.readers[id := Loaded(r.name, r.since, r.gen, found, |Past(s, r.name)| - 1)])
    case Fill(id) =>
      var r := s.readers[id];
      s.(cache := Filled(s.cache, r.name, r.found, r.gen), readers := s.readers[id := Done(r.name, r.since, r.found, r.at)])
    case Return(id) =>
      s.(readers := s.readers - {id})
    case Lock(name) =>
      s.(writers := s.writers[name := Locked])
    case Commit(name, config) =>
      s.(db := if config.Some? then s.db[name := config.value] else s.db - {name}, writers := s.writers[name := Committed])
    case Invalidate(name) =>
      s.(cache := Invalidated(s.cache, name), past := s.past[name := Past(s, name) + [InDatabase(s, name)]],
         writers := s.writers[name := Finished])
    case Store(name) =>
      s.(cache := Stored(s.cache, name, s.db[name]), past := s.past[name := Past(s, name) + [InDatabase(s, name)]],
         writers := s.writers[name := Finished])
    case Unlock(name) =>
      s.(writers := s.writers - {name})
  }

  predicate Read(s: State, name: Bytes, since: nat, found: Lookup, at: nat) {
    since <= at < |Past(s, name)| && (!found.ReadFailed? ==> found == AsLookup(Past(s, name)[at]))
  }

  predicate ReaderOk(s: State, r: Reader) {
    && r.since < |Past(s, r.name)|
    && (r.Guarded? || r.Loaded? ==> r.gen <= s.cache.gen)
    && (r.Loaded? || r.Done? ==> Read(s, r.name, r.since, r.found, r.at))
    && (r.Loaded? && r.gen == s.cache.gen ==> r.at == |Past(s, r.name)| - 1)
  }

  /** Everything cached is in force, and so is the database unless a writer is
      between its commit and the cache. */
  ghost predicate Inv(s: State) {
    && (forall name :: name in s.cache.entries ==> s.cache.entries[name] == InForce(s, name))
    && (forall name :: InDatabase(s, name) != InForce(s, name) ==> name in s.writers && s.writers[name].Committed?)
    && (forall id :: id in s.readers ==> ReaderOk(s, s.readers[id]))
  }

  /** A step of a writer that has not reached the cache yet. */
  lemma WriterKeepsInv(s: State, s1: State, name: Bytes)
    requires Inv(s) && s1.cache == s.cache && s1.past == s.past && s1.readers == s.readers
    requires s1.db - {name} == s.db - {name} && s1.writers - {name} == s.writers - {name}
    requires InDatabase(s1, name) != InForce(s, name) ==> name in s1.writers && s1.writers[name].Committed?
    ensures Inv(s1)
  {
    forall n
      ensures InForce(s1, n) == InForce(s, n) && Past(s1, n) == Past(s, n)
      ensures n != name ==> InDatabase(s1, n) == InDatabase(s, n)
      ensures n != name && n in s.writers ==> n in s1.writers && s1.writers[n] == s.writers[n]
    {
      assert n != name ==> (n in s1.db <==> n in s1.db - {name}) && (n in s.db <==> n in s.db - {name});
      assert n != name ==> (n in s1.writers <==> n in s1.writers - {name});
      assert n != name ==> (n in s.writers <==> n in s.writers - {name});
    }
    forall id | id in s1.readers
      ensures ReaderOk(s1, s1.readers[id])
    {
      assert ReaderOk(s, s.readers[id]);
    }
  }

  /** Reaching the cache puts an update in force and outdates every guarded read. */
  lemma PublishKeepsInv(s: State, name: Bytes, s1: State)
    requires Inv(s) && name in s.writers && s.writers[name].Committed?
    requires s1.db == s.db && s1.readers == s.readers && s1.writers == s.writers[name := Finished]
    requires s1.past == s.past[name := Past(s, name) + [InDatabase(s, name)]]
    requires s1.cache == Invalidated(s.cache, name) || (name in s.db && s1.cache == Stored(s.cache, name, s.db[name]))
    ensures Inv(s1)
  {
    PastExtended(s, s1, name);
    forall n | n in s1.cache.entries
      ensures s1.cache.entries[n] == InForce(s1, n)
    {
      assert n != name ==> n in s.cache.entries;
    }
    forall id | id in s1.readers
      ensures ReaderOk(s1, s1.readers[id])
    {
      assert ReaderOk(s, s.readers[id]);
      OutdatedReader(s, s1, s.readers[id]);
    }
  }

  lemma PastExtended(s: State, s1: State, name: Bytes)
    requires s1.db == s.db && s1.past == s.past[name := Past(s, name) + [InDatabase(s, name)]]
    ensures InForce(s1, name) == InDatabase(s, name)
    ensures forall n :: n != name ==> InForce(s1, n) == InForce(s, n) && InDatabase(s1, n) == InDatabase(s, n)
    ensures forall n :: |Past(s, n)| <= |Past(s1, n)|
    ensures forall n, i :: 0 <= i < |Past(s, n)| ==> Past(s1, n)[i] == Past(s, n)[i]
  {
  }

  lemma OutdatedReader(s: State, s1: State, r: Reader)
    requires ReaderOk(s, r) && s1.cache.gen == s.cache.gen + 1
    requires |Past(s, r.name)| <= |Past(s1, r.name)|
    requires forall i :: 0 <= i < |Past(s, r.name)| ==> Past(s1, r.name)[i] == Past(s, r.name)[i]
    ensures ReaderOk(s1, r)
  {
  }

  /** A step of a reader that leaves the cache alone. */
  lemma ReaderKeepsInv(s: State, s1: State, id: nat)
    requires Inv(s) && s1.cache == s.cache && s1.past == s.past && s1.db == s.db && s1.writers == s.writers
    requires forall i :: i in s1.readers && i != id ==> i in s.readers && s1.readers[i] == s.readers[i]
    requires id in s1.readers ==> ReaderOk(s, s1.readers[id])
    ensures Inv(s1)
  {
    forall n
      ensures InForce(s1, n) == InForce(s, n) && InDatabase(s1, n) == InDatabase(s, n)
    {
    }
    forall i | i in s1.readers
      ensures ReaderOk(s1, s1.readers[i])
    {
      assert i != id ==> ReaderOk(s, s.readers[i]);
    }
  }

  lemma LookKeepsInv(s: State, a: Action)
    requires Inv(s) && Enabled(s, a)
    requires a.Start? || a.CheckCache? || a.TakeGeneration? || a.ReadDatabase? || a.Return?
    ensures Inv(Next(s, a))
  {
    assert a.id in s.readers ==> ReaderOk(s, s.readers[a.id]);
    if a.ReadDatabase? {
      assert InDatabase(s, s.readers[a.id].name) == InForce(s, s.readers[a.id].name);
    }
    ReaderKeepsInv(s, Next(s, a), a.id);
  }

  lemma FilledEntry(c: Cache, name: Bytes, found: Lookup, gen: nat, n: Bytes)
    requires n in Filled(c, name, found, gen).entries
    ensures
      var entry := Filled(c, name, found, gen).entries[n];
      || (n in c.entries && entry == c.entries[n])
      || (n == name && c.gen == gen && found == AsLookup(entry))
  {
  }

  /** Filling the cache under the generation of the read stores what is in force. */
  lemma FillKeepsInv(s: State, id: nat)
    requires Inv(s) && Enabled(s, Fill(id))
    ensures Inv(Next(s, Fill(id)))
  {
    var s1, r := Next(s, Fill(id)), s.readers[id];
    assert ReaderOk(s, r);
    forall n | n in s1.cache.entries
      ensures s1.cache.entries[n] == InForce(s, n)
    {
      FilledEntry(s.cache, r.name, r.found, r.gen, n);
    }
    CacheKeepsInv(s, s.(cache := s1.cache));
    ReaderKeepsInv(s.(cache := s1.cache), s1, id);
  }

  lemma CacheKeepsInv(s: State, s1: State)
    requires Inv(s) && s1 == s.(cache := s1.cache) && s1.cache.gen == s.cache.gen
    requires forall n :: n in s1.cache.entries ==> s1.cache.entries[n] == InForce(s, n)
    ensures Inv(s1)
  {
    forall n
      ensures InForce(s1, n) == InForce(s, n) && InDatabase(s1, n) == InDatabase(s, n)
    {
    }
    forall i | i in s1.readers
      ensures ReaderOk(s1, s1.readers[i])
    {
      assert ReaderOk(s, s.readers[i]);
    }
  }

  lemma StepKeepsInv(s: State, a: Action)
    requires Inv(s) && Enabled(s, a)
    ensures Inv(Next(s, a))
  {
    match a
    case Invalidate(name) => PublishKeepsInv(s, name, Next(s, a));
    case Store(name) => PublishKeepsInv(s, name, Next(s, a));
    case Fill(id) => FillKeepsInv(s, id);
    case Lock(name) => WriterKeepsInv(s, Next(s, a), name);
    case Commit(name, _) => WriterKeepsInv(s, Next(s, a), name);
    case Unlock(name) => WriterKeepsInv(s, Next(s, a), name);
    case _ => LookKeepsInv(s, a);
  }

  predicate Runs(s: State, actions: seq<Action>)
    decreases |actions|
  {
    actions == [] || (Enabled(s, actions[0]) && Runs(Next(s, actions[0]), actions[1..]))
  }

  function Final(s: State, actions: seq<Action>): State
    requires Runs(s, actions)
    decreases |actions|
  {
    if actions == [] then s else Final(Next(s, actions[0]), actions[1..])
  }

  /** At the start nothing is cached and nobody is at work. */
  predicate Starts(s: State) {
    && s.cache.entries == map[] && s.readers == map[] && s.writers == map[]
    && s.past.Keys == s.db.Keys && forall n :: n in s.db ==> s.past[n] == [Some(s.db[n])]
  }

  lemma {:induction false} RunKeepsInv(s: State, actions: seq<Action>)
    requires Inv(s) && Runs(s, actions)
    ensures Inv(Final(s, actions))
    decreases |actions|
  {
    if actions != [] {
      StepKeepsInv(s, actions[0]);
      RunKeepsInv(Next(s, actions[0]), actions[1..]);
    }
  }

  lemma StartsWithInv(s: State)
    requires Starts(s)
    ensures Inv(s)
  {
    forall n
      ensures InDatabase(s, n) == InForce(s, n)
    {
    }
  }

  /** In every interleaving, a cached entry, also one that says a bucket is absent,
      differs from the database only while a writer of that bucket is between its
      commit and the cache. */
  lemma CacheIsCoherent(s: State, actions: seq<Action>, name: Bytes)
    requires Starts(s) && Runs(s, actions)
    requires name in Final(s, actions).cache.entries
    requires Final(s, actions).cache.entries[name] != InDatabase(Final(s, actions), name)
    ensures name in Final(s, actions).writers && Final(s, actions).writers[name].Committed?
  {
    StartsWithInv(s);
    RunKeepsInv(s, actions);
  }

  /** Past configurations are only added to, and a call that begins during a run
      begins no earlier than the configuration in force before it. */
  lemma {:induction false} PastGrows(s: State, actions: seq<Action>, name: Bytes, known: set<nat>, floor: nat)
    requires Runs(s, actions) && floor < |Past(s, name)|
    requires forall id :: id in s.readers && id !in known && s.readers[id].name == name ==> floor <= s.readers[id].since
    ensures
      var s' := Final(s, actions);
      && |Past(s, name)| <= |Past(s', name)| && Past(s', name)[..|Past(s, name)|] == Past(s, name)
      && (forall id :: id in s'.readers && id !in known && s'.readers[id].name == name ==> floor <= s'.readers[id].since)
    decreases |actions|
  {
    if actions == [] {
      assert Past(s, name)[..|Past(s, name)|] == Past(s, name);
    } else {
      var s1 := Next(s, actions[0]);
      assert Past(s1, name)[..|Past(s, name)|] == Past(s, name);
      PastGrows(s1, actions[1..], name, known, floor);
      var p := Past(Final(s, actions), name);
      assert p[..|Past(s, name)|] == p[..|Past(s1, name)|][..|Past(s, name)|];
    }
  }

  /** A call that begins after an update of its bucket has returned never answers
      with an older configuration: what it answers was in force at some moment
      while it ran. */
  lemma ReadsSeeReturnedUpdates(s: State, before: seq<Action>, after: seq<Action>, id: nat)
    requires Starts(s) && Runs(s, before) && Runs(Final(s, before), after)
    requires id !in Final(s, before).readers
    requires id in Final(Final(s, before), after).readers && Final(Final(s, before), after).readers[id].Done?
    requires !Final(Final(s, before), after).readers[id].found.ReadFailed?
    ensures
      var s1, s2 := Final(s, before), Final(Final(s, before), after);
      var r := s2.readers[id];
      && |Past(s1, r.name)| - 1 <= r.at < |Past(s2, r.name)|
      && r.found == AsLookup(Past(s2, r.name)[r.at])
      && Past(s2, r.name)[|Past(s1, r.name)| - 1] == InForce(s1, r.name)
  {
    var s1, s2 := Final(s, before), Final(Final(s, before), after);
    var name := s2.readers[id].name;
    StartsWithInv(s);
    RunKeepsInv(s, before);
    RunKeepsInv(s1, after);
    assert ReaderOk(s2, s2.readers[id]);
    PastGrows(s1, after, name, s1.readers.Keys, |Past(s1, name)| - 1);
    var past1, past2 := Past(s1, name), Past(s2, name);
    assert past2[..|past1|][|past1| - 1] == past2[|past1| - 1];
  }

  lemma RunStep(s: State, a: Action, rest: seq<Action>)
    requires Enabled(s, a) && Runs(Next(s, a), rest)
    ensures Runs(s, [a] + rest) && Final(s, [a] + rest) == Final(Next(s, a), rest)
  {
    assert ([a] + rest)[1..] == rest;
  }

  /** A read of a bucket that overlaps an update of it. */
  function OverlappedRead(name: Bytes, now: Config): seq<Action> {
    [Start(0, name)] + ([CheckCache(0)] + ([TakeGeneration(0)] + ([ReadDatabase(0, false)]
    + ([Lock(name)] + ([Commit(name, Some(now))] + ([Invalidate(name)] + ([Unlock(name)] + [])))))))
  }

  /** Why the generation is checked: the read below would put the configuration of
      before the update back in the cache, with nothing to correct it; the guard
      leaves the cache as it is. */
  lemma GuardStopsStaleFill(name: Bytes, was: Config, now: Config)
    requires was != now
    ensures
      var s := State(Cache(map[], 0), map[name := was], map[name := [Some(was)]], map[], map[]);
      && Starts(s) && Runs(s, OverlappedRead(name, now))
      && var s1 := Final(s, OverlappedRead(name, now));
         && s1.readers == map[0 := Loaded(name, 0, 0, Found(was), 0)] && InDatabase(s1, name) == Some(now)
         && Filled(s1.cache, name, Found(was), s1.cache.gen).entries == map[name := Some(was)]
         && Next(s1, Fill(0)).cache.entries == map[]
  {
    var s0 := State(Cache(map[], 0), map[name := was], map[name := [Some(was)]], map[], map[]);
    var s1 := Next(s0, Start(0, name));
    var s2 := Next(s1, CheckCache(0));
    var s3 := Next(s2, TakeGeneration(0));
    var s4 := s0.(readers := map[0 := Loaded(name, 0, 0, Found(was), 0)]);
    assert Next(s3, ReadDatabase(0, false)) == s4;
    OverlappingUpdate(s4, name, was, now);
    var update := [Lock(name)] + ([Commit(name, Some(now))] + ([Invalidate(name)] + ([Unlock(name)] + [])));
    RunStep(s3, ReadDatabase(0, false), update);
    RunStep(s2, TakeGeneration(0), [ReadDatabase(0, false)] + update);
    RunStep(s1, CheckCache(0), [TakeGeneration(0)] + ([ReadDatabase(0, false)] + update));
    RunStep(s0, Start(0, name), [CheckCache(0)] + ([TakeGeneration(0)] + ([ReadDatabase(0, false)] + update)));
  }

  lemma OverlappingUpdate(s: State, name: Bytes, was: Config, now: Config)
    requires s == State(Cache(map[], 0), map[name := was], map[name := [Some(was)]], s.readers, map[])
    ensures
      var update := [Lock(name)] + ([Commit(name, Some(now))] + ([Invalidate(name)] + ([Unlock(name)] + [])));
      && Runs(s, update)
      && Final(s, update) ==
         State(Cache(map[], 1), map[name := now], map[name := [Some(was), Some(now)]], s.readers, map[])
  {
    var s5 := Next(s, Lock(name));
    var s6 := Next(s5, Commit(name, Some(now)));
    var s7 := Next(s6, Invalidate(name));
    var s8 := Next(s7, Unlock(name));
    assert Past(s6, name) + [InDatabase(s6, name)] == [Some(was), Some(now)];
    assert s8.cache.entries == map[] && s8.db == map[name := now] && s8.writers == map[];
    assert s8.past == map[name := [Some(was), Some(now)]];
    RunStep(s7, Unlock(name), []);
    RunStep(s6, Invalidate(name), [Unlock(name)] + []);
    RunStep(s5, Commit(name, Some(now)), [Invalidate(name)] + ([Unlock(name)] + []));
    RunStep(s, Lock(name), [Commit(name, Some(now))] + ([Invalidate(name)] + ([Unlock(name)] + [])));
  }
}
