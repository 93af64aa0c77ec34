/** The per-bucket metadata database: its transactions, step by step. */
module MetadataStores {
  import opened ByteOrder
  import opened Records

  /** The journal after a transaction on `key`: a revision never used before. */
  function Marked(replication: bool, journal: map<Bytes, nat>, sequence: nat, key: Bytes): map<Bytes, nat> {
    if replication then journal[key := sequence + 1] else journal
  }

  class MetadataStore {
    const replication: bool
    var objects: Table
    /** The stored number of pointers; None until the first count. */
    var objectCount: Option<int>
    /** Pending replication revisions, and the last revision given out. */
    var journal: map<Bytes, nat>
    var sequence: nat

    ghost predicate CountOk()
      reads this
    {
      objectCount.Some? ==> objectCount.value == |PointerKeys(objects)|
    }

    ghost predicate Valid()
      reads this
    {
      && Consistent(objects)
      && CountOk()
      && forall k :: k in journal ==> 1 <= journal[k] <= sequence
    }

    /** Opens a database. A count is recorded at once only if there is nothing to
        count; otherwise the first read counts. */
    constructor (replication: bool, objects: Table, storedCount: Option<int>)
      requires Consistent(objects)
      requires storedCount.Some? ==> storedCount.value == |PointerKeys(objects)|
      ensures Valid()
      ensures this.replication == replication && this.objects == objects && journal == map[] && sequence == 0
      ensures objectCount == if storedCount.None? && objects == map[] then Some(0) else storedCount
    {
      this.replication := replication;
      this.objects := objects;
      this.journal, this.sequence := map[], 0;
      if storedCount.None? && objects == map[] {
        this.objectCount := Some(0);
      } else {
        this.objectCount := storedCount;
      }
    }

    /** Adds to the stored count. A count that would go negative is dropped, so
        that the next read recounts. */
    method AdjustObjectCount(delta: int)
      modifies this`objectCount
      ensures old(objectCount).None? ==> objectCount.None?
      ensures old(objectCount).Some? && old(objectCount).value + delta < 0 ==> objectCount.None?
      ensures old(objectCount).Some? && old(objectCount).value + delta >= 0 ==>
                objectCount == Some(old(objectCount).value + delta)
    {
      if objectCount.None? {
        return;
      }
      var n := objectCount.value + delta;
      if n < 0 {
        objectCount := None;
      } else {
        objectCount := Some(n);
      }
    }

    method MarkReplication(key: Bytes)
      modifies this`journal, this`sequence
      ensures journal == Marked(replication, old(journal), old(sequence), key)
      ensures sequence == old(sequence) + if replication then 1 else 0
      ensures replication && (forall k :: k in old(journal) ==> old(journal)[k] <= old(sequence)) ==>
                forall k :: k in old(journal) ==> journal[key] > old(journal)[k]
    {
      if !replication {
        return;
      }
      sequence := sequence + 1;
      journal := journal[key := sequence];
    }

    /** Removes every version record of a key: collect them with a cursor, then
        delete them. */
    method DeleteVersionRecords(key: Bytes)
      modifies this`objects
      ensures objects == map rk | rk in old(objects) && !(rk.Version? && rk.key == key) :: old(objects)[rk]
    {
      var rest := VersionIds(objects, key);
      var stale: seq<Bytes> := [];
      while rest != {}
        invariant forall v :: v in VersionIds(objects, key) <==> v in rest || v in stale
        decreases |rest|
      {
        var v := First(rest);
        stale, rest := stale + [v], rest - {v};
      }
      var i := 0;
      while i < |stale|
        invariant 0 <= i <= |stale|
        invariant objects == map rk | rk in old(objects) &&
                                      !(rk.Version? && rk.key == key && rk.versionId in stale[..i]) :: old(objects)[rk]
      {
        objects := objects - {Version(key, stale[i])};
        i := i + 1;
      }
      assert stale[..i] == stale;
    }

    method PutObjectMeta(info: ObjectInfo)
      requires Valid() && Storable(info)
      modifies this
      ensures Valid()
      ensures objects == Put(old(objects), info)
      ensures journal == Marked(replication, old(journal), old(sequence), info.key)
      ensures old(objectCount).Some? <==> objectCount.Some?
    {
      MarkReplication(info.key);
      ghost var before := objects;
      PutChanges(before, info);
      var latest := info.(isLatest := true);

      var oldData := Get(objects, Pointer(info.key));
      if oldData.None? {
        AdjustObjectCount(1);
      } else {
        var oldInfo := oldData.value;
        if oldInfo.versionId != "" && oldInfo.versionId != info.versionId {
          oldInfo := oldInfo.(isLatest := false, noncurrentSince := Some(info.modified));
          objects := objects[Version(oldInfo.key, oldInfo.versionId) := oldInfo];
        }
      }
      ghost var displaced := objects;

      if info.versionId != "" {
        objects := objects[Version(info.key, info.versionId) := latest];
      } else {
        DeleteVersionRecords(info.key);
      }
      PutInSteps(before, displaced, objects, info);
      objects := objects[Pointer(info.key) := latest];
    }

    /** Scans the versions of a key, in cursor order, for the newest one. */
    method FindNextNewestVersion(key: Bytes, deleted: Bytes) returns (newest: Option<ObjectInfo>)
      requires forall v :: v in VersionIds(objects, key) ==> objects[Version(key, v)].versionId == v
      ensures newest == match Newest(objects, key, deleted)
                        case None => None
                        case Some(n) => Some(objects[Version(key, n)])
    {
      var rest := VersionIds(objects, key);
      ghost var seen: set<Bytes> := {};
      newest := None;
      while rest != {}
        invariant seen + rest == VersionIds(objects, key)
        invariant forall v, w :: v in seen && w in rest ==> Lt(v, w)
        invariant newest.None? <==> seen - {deleted} == {}
        invariant newest.Some? ==>
                    && IsNewest(objects, key, seen - {deleted}, newest.value.versionId)
                    && newest.value == objects[Version(key, newest.value.versionId)]
        decreases |rest|
      {
        var v := First(rest);
        var info := objects[Version(key, v)];
        assert seen + {v} <= VersionIds(objects, key);
        NewestSoFar(objects, key, seen, deleted, v, if newest.Some? then newest.value.versionId else "");
        if info.versionId != deleted {
          if newest.None? || info.modified > newest.value.modified {
            newest := Some(info);
          }
        }
        seen, rest := seen + {v}, rest - {v};
      }
      assert seen == VersionIds(objects, key);
      if newest.Some? {
        NewestUnique(objects, key, seen - {deleted}, newest.value.versionId, Newest(objects, key, deleted).value);
      }
    }

    /** Deletes one version, or with "" the whole key. */
    method DeleteObjectMeta(key: Bytes, versionId: Bytes)
      requires Valid()
      modifies this
      ensures Valid()
      ensures objects == if versionId == "" then DeleteKey(old(objects), key)
                         else DeleteVersion(old(objects), key, versionId)
      ensures journal == Marked(replication, old(journal), old(sequence), key)
      ensures old(objectCount).Some? <==> objectCount.Some?
    {
      MarkReplication(key);
      if versionId != "" {
        DeleteOneVersion(key, versionId);
        return;
      }
      DeleteKeyChanges(objects, key);
      ghost var before := objects;
      if Pointer(key) in objects {
        objects := objects - {Pointer(key)};
        AdjustObjectCount(-1);
      }
      DeleteVersionRecords(key);
      DeleteKeyInSteps(before, objects, key);
    }

    method DeleteOneVersion(key: Bytes, versionId: Bytes)
      requires Valid() && versionId != ""
      modifies this`objects, this`objectCount
      ensures Valid()
      ensures objects == DeleteVersion(old(objects), key, versionId)
      ensures old(objectCount).Some? <==> objectCount.Some?
    {
      ghost var before := objects;
      DeleteVersionChanges(before, key, versionId);
      objects := objects - {Version(key, versionId)};
      ghost var removed := objects;

      var latest := Get(objects, Pointer(key));
      if latest.Some? && latest.value.versionId == versionId {
        SameNewest(before, removed, key, versionId);
        var next := FindNextNewestVersion(key, versionId);
        if next.Some? {
          var nextLatest := next.value.(isLatest := true);
          objects := objects[Pointer(key) := nextLatest];
          if nextLatest.versionId != "" {
            objects := objects[Version(key, nextLatest.versionId) := nextLatest];
          }
        } else {
          objects := objects - {Pointer(key)};
          AdjustObjectCount(-1);
        }
      }
      DeleteVersionInSteps(before, objects, key, versionId);
    }

    /** Stores a record as given; used to re-record an unversioned object as the
        "null" version, so no delivery is due. */
    method PutObjectMetaRaw(info: ObjectInfo)
      requires CountOk()
      modifies this`objects, this`objectCount
      ensures CountOk()
      ensures objects == PutRaw(old(objects), info)
      ensures Consistent(old(objects)) && Promotes(old(objects), info) ==> Consistent(objects)
      ensures journal == old(journal) && sequence == old(sequence)
    {
      PutRawChanges(objects, info);
      if info.versionId != "" {
        objects := objects[Version(info.key, info.versionId) := info];
      }
      if info.isLatest {
        if Get(objects, Pointer(info.key)).None? {
          AdjustObjectCount(1);
        }
        objects := objects[Pointer(info.key) := info];
      }
    }

    method GetObjectMeta(key: Bytes, versionId: Bytes) returns (r: Option<ObjectInfo>)
      ensures r == Lookup(objects, key, versionId)
    {
      var data: Option<ObjectInfo>;
      if versionId != "" {
        data := Get(objects, Version(key, versionId));
      } else {
        data := Get(objects, Pointer(key));
      }
      if data.None? && versionId == "null" {
        var legacy := Get(objects, Pointer(key));
        if legacy.Some? && legacy.value.versionId == "" {
          data := legacy;
        }
      }
      return data;
    }

    /** Reads the pointer and then walks the version records, skipping a version
        already seen. */
    method GetObjectVersions(key: Bytes) returns (versions: seq<ObjectInfo>)
      requires Consistent(objects)
      ensures versions == KeyVersions(objects, key)
    {
      versions := [];
      var seen: set<Bytes> := {};
      if Pointer(key) in objects {
        versions, seen := [objects[Pointer(key)]], {objects[Pointer(key)].versionId};
      }
      ghost var t, all, current := objects, KeyVersions(objects, key), seen;
      var rest := VersionIds(objects, key);
      IdsMatchRecords(t, key);
      while rest != {}
        invariant rest <= VersionIds(t, key)
        invariant forall v :: v in rest ==> (v in seen <==> v in current)
        invariant all == versions + InOrder(t, key, rest - current)
        decreases |rest|
      {
        var v := First(rest);
        var info := objects[Version(key, v)];
        NextInOrder(t, key, rest, current);
        ghost var later := InOrder(t, key, rest - {v} - current);
        if info.versionId !in seen {
          seen := seen + {info.versionId};
          assert versions + ([info] + later) == (versions + [info]) + later;
          versions := versions + [info];
        } else {
          assert [] + later == later;
        }
        rest := rest - {v};
      }
      assert rest - current == {};
    }

    /** The number of keys with a current record, from the stored count or, where
        none is stored yet, from one scan. */
    method CountObjectMetas() returns (count: int)
      requires Valid()
      modifies this`objectCount
      ensures Valid()
      ensures count == |PointerKeys(objects)| && objectCount == Some(count)
    {
      if objectCount.Some? {
        return objectCount.value;
      }
      count := 0;
      var rest := objects.Keys;
      ghost var counted: set<Bytes> := {};
      while rest != {}
        invariant rest <= objects.Keys
        invariant forall k :: k in counted <==> Pointer(k) in objects && Pointer(k) !in rest
        invariant count == |counted|
        decreases |rest|
      {
        var rk :| rk in rest;
        if rk.Pointer? {
          count := count + 1;
          assert rk.key !in counted;
          counted := counted + {rk.key};
        }
        rest := rest - {rk};
      }
      assert counted == PointerKeys(objects);
      objectCount := Some(count);
    }
  }

  lemma SameTable(t: Table, u: Table)
    requires forall rk :: Get(t, rk) == Get(u, rk)
    ensures t == u
  {
    assert forall rk :: rk in t <==> rk in u by {
      forall rk
        ensures rk in t <==> rk in u
      {
        assert Get(t, rk) == Get(u, rk);
      }
    }
    forall rk | rk in t
      ensures t[rk] == u[rk]
    {
      assert Get(t, rk) == Get(u, rk);
    }
  }

  lemma NextInOrder(t: Table, key: Bytes, ids: set<Bytes>, except: set<Bytes>)
    requires ids != {} && forall v :: v in ids ==> Version(key, v) in t
    ensures var v := First(ids);
            InOrder(t, key, ids - except) ==
            (if v in except then [] else [t[Version(key, v)]]) + InOrder(t, key, ids - {v} - except)
  {
    var v := First(ids);
    if v in except {
      assert ids - except == ids - {v} - except;
    } else {
      var kept := ids - except;
      assert v in kept;
      if First(kept) != v {
        LtAsymmetric(First(kept), v);
      }
      assert kept - {v} == ids - {v} - except;
    }
  }

  lemma IdsMatchRecords(t: Table, key: Bytes)
    requires Consistent(t)
    ensures forall v :: v in VersionIds(t, key) ==> t[Version(key, v)].versionId == v && Pointer(key) in t
  {
    forall v | v in VersionIds(t, key)
      ensures t[Version(key, v)].versionId == v && Pointer(key) in t
    {
      assert RecordOk(t, Version(key, v));
    }
  }

  /** The newest of the versions seen and one more, later in key order. */
  lemma NewestSoFar(t: Table, key: Bytes, seen: set<Bytes>, deleted: Bytes, v: Bytes, newest: Bytes)
    requires (forall w :: w in seen ==> Lt(w, v)) && seen + {v} <= VersionIds(t, key)
    requires seen - {deleted} == {} || IsNewest(t, key, seen - {deleted}, newest)
    ensures v == deleted ==> (seen + {v}) - {deleted} == seen - {deleted}
    ensures v != deleted ==>
      IsNewest(t, key, (seen + {v}) - {deleted},
               if seen - {deleted} == {} || t[Version(key, v)].modified > t[Version(key, newest)].modified then v else newest)
  {
    assert v != deleted ==> (seen + {v}) - {deleted} == (seen - {deleted}) + {v};
  }

  lemma SameNewest(t: Table, u: Table, key: Bytes, except: Bytes)
    requires forall rk :: rk in u <==> rk in t && rk != Version(key, except)
    requires forall rk :: rk in u ==> u[rk] == t[rk]
    ensures Newest(t, key, except) == Newest(u, key, except)
  {
    var ids := VersionIds(t, key) - {except};
    assert ids == VersionIds(u, key) - {except};
    if ids != {} {
      assert IsNewest(u, key, ids, Newest(t, key, except).value);
      NewestUnique(u, key, ids, Newest(t, key, except).value, Newest(u, key, except).value);
    }
  }

  lemma PutInSteps(t: Table, displaced: Table, versioned: Table, info: ObjectInfo)
    requires Consistent(t)
    requires
      var prior := Get(t, Pointer(info.key));
      displaced ==
      if prior.Some? && prior.value.versionId != "" && prior.value.versionId != info.versionId then
        t[Version(prior.value.key, prior.value.versionId) := Displaced(prior.value, info.modified)]
      else
        t
    requires
      versioned ==
      if info.versionId != "" then
        displaced[Version(info.key, info.versionId) := info.(isLatest := true)]
      else
        map rk | rk in displaced && !(rk.Version? && rk.key == info.key) :: displaced[rk]
    ensures versioned[Pointer(info.key) := info.(isLatest := true)] == Put(t, info)
  {
    var r := versioned[Pointer(info.key) := info.(isLatest := true)];
    assert Pointer(info.key) in t ==> RecordOk(t, Pointer(info.key));
    forall rk
      ensures Get(r, rk) == Get(Put(t, info), rk)
    {
      PutGet(t, info, rk);
    }
    SameTable(r, Put(t, info));
  }

  lemma PutChanges(t: Table, info: ObjectInfo)
    requires Consistent(t) && Storable(info)
    ensures Consistent(Put(t, info))
    ensures |PointerKeys(Put(t, info))| == |PointerKeys(t)| + if Pointer(info.key) in t then 0 else 1
  {
    PutConsistent(t, info);
    forall k
      ensures k in PointerKeys(Put(t, info)) <==> k in PointerKeys(t) + {info.key}
    {
      PutGet(t, info, Pointer(k));
    }
    assert PointerKeys(Put(t, info)) == PointerKeys(t) + {info.key};
  }

  lemma PutRawChanges(t: Table, info: ObjectInfo)
    ensures Consistent(t) && Promotes(t, info) ==> Consistent(PutRaw(t, info))
    ensures |PointerKeys(PutRaw(t, info))| ==
            |PointerKeys(t)| + if info.isLatest && Pointer(info.key) !in t then 1 else 0
  {
    if Consistent(t) && Promotes(t, info) {
      PromotionConsistent(t, info);
    }
    if info.isLatest {
      assert PointerKeys(PutRaw(t, info)) == PointerKeys(t) + {info.key};
    } else {
      assert PointerKeys(PutRaw(t, info)) == PointerKeys(t);
    }
  }

  lemma DeleteKeyInSteps(t: Table, r: Table, key: Bytes)
    requires var t1 := if Pointer(key) in t then t - {Pointer(key)} else t;
             r == map rk | rk in t1 && !(rk.Version? && rk.key == key) :: t1[rk]
    ensures r == DeleteKey(t, key)
  {
  }

  lemma DeleteKeyChanges(t: Table, key: Bytes)
    requires Consistent(t)
    ensures Consistent(DeleteKey(t, key))
    ensures |PointerKeys(DeleteKey(t, key))| == |PointerKeys(t)| - if Pointer(key) in t then 1 else 0
  {
    DeleteKeyConsistent(t, key);
    assert PointerKeys(DeleteKey(t, key)) == PointerKeys(t) - {key};
  }

  lemma DeleteVersionInSteps(t: Table, r: Table, key: Bytes, v: Bytes)
    requires Consistent(t) && v != ""
    requires
      var removed := t - {Version(key, v)};
      r ==
      if !IsCurrent(t, key, v) then removed
      else match Newest(t, key, v)
           case None => removed - {Pointer(key)}
           case Some(n) =>
             var next := t[Version(key, n)].(isLatest := true);
             var pointed := removed[Pointer(key) := next];
             if next.versionId != "" then pointed[Version(key, next.versionId) := next] else pointed
    ensures r == DeleteVersion(t, key, v)
  {
    assert Pointer(key) in t ==> RecordOk(t, Pointer(key));
    if IsCurrent(t, key, v) && Newest(t, key, v).Some? {
      assert RecordOk(t, Version(key, Newest(t, key, v).value));
    }
    forall rk
      ensures Get(r, rk) == Get(DeleteVersion(t, key, v), rk)
    {
      DeleteVersionGet(t, key, v, rk);
      assert rk in t ==> RecordOk(t, rk);
      if rk in t && rk.Version? && rk.key == key && rk.versionId != v {
        assert rk.versionId in VersionIds(t, key) - {v};
      }
    }
    SameTable(r, DeleteVersion(t, key, v));
  }

  lemma DeleteVersionChanges(t: Table, key: Bytes, v: Bytes)
    requires Consistent(t) && v != ""
    ensures Consistent(DeleteVersion(t, key, v))
    ensures |PointerKeys(DeleteVersion(t, key, v))| ==
            |PointerKeys(t)| - if IsCurrent(t, key, v) && Newest(t, key, v).None? then 1 else 0
    ensures forall w :: w in VersionIds(t, key) ==> t[Version(key, w)].versionId == w
  {
    IdsMatchRecords(t, key);
    DeleteVersionConsistent(t, key, v);
    forall k
      ensures k in PointerKeys(DeleteVersion(t, key, v)) <==>
              k in PointerKeys(t) && !(k == key && IsCurrent(t, key, v) && Newest(t, key, v).None?)
    {
      DeleteVersionGet(t, key, v, Pointer(k));
    }
    if IsCurrent(t, key, v) && Newest(t, key, v).None? {
      assert PointerKeys(DeleteVersion(t, key, v)) == PointerKeys(t) - {key};
    } else {
      assert PointerKeys(DeleteVersion(t, key, v)) == PointerKeys(t);
    }
  }

  /** The state of `key` that a replica mirrors. */
  function Visible(t: Table, key: Bytes): Option<Digest> {
    if Pointer(key) in t && !t[Pointer(key)].isDeleteMarker then Some(t[Pointer(key)].etag) else None
  }
}
