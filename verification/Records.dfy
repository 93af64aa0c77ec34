/** The metadata of one bucket as a table of records, and the effect of each
    metadata transaction on it.

    A key has a latest-version pointer, and, once versioned, one record per
    version. A bbolt transaction is one atomic change of the table. */
module Records {
  import opened ByteOrder

  /** A collision-free digest: two byte strings with one digest are equal. */
  datatype Digest = Digest(of: Bytes)

  datatype ObjectInfo = ObjectInfo(
    key: Bytes,
    size: nat,
    etag: Digest,
    attributes: Bytes, // content type, compression flag, SSE-C algorithm and key digest
    modified: int,
    versionId: Bytes,
    isLatest: bool,
    noncurrentSince: Option<int>,
    isDeleteMarker: bool,
    blobId: Bytes)

  datatype RecordKey = Pointer(key: Bytes) | Version(key: Bytes, versionId: Bytes)

  type Table = map<RecordKey, ObjectInfo>

  function Get(t: Table, rk: RecordKey): Option<ObjectInfo> {
    if rk in t then Some(t[rk]) else None
  }

  function VersionIds(t: Table, key: Bytes): (ids: set<Bytes>)
    ensures forall v :: v in ids <==> Version(key, v) in t
  {
    set rk | rk in t.Keys && rk.Version? && rk.key == key :: rk.versionId
  }

  // ---------------------------------------------------------------- invariant

  /** What every committed table satisfies, seen from one record. */
  ghost predicate RecordOk(t: Table, rk: RecordKey)
    requires rk in t
  {
    var info := t[rk];
    && info.key == rk.key
    && (rk.Pointer? ==>
          && info.isLatest
          && (info.versionId == "" ==> !info.isDeleteMarker && forall v :: Version(rk.key, v) !in t)
          && (info.versionId != "" ==> Get(t, Version(rk.key, info.versionId)) == Some(info)))
    && (rk.Version? ==>
          && info.versionId == rk.versionId != ""
          && (info.isDeleteMarker || info.blobId != "")
          && Pointer(rk.key) in t
          && (info.isLatest <==> t[Pointer(rk.key)].versionId == rk.versionId))
  }

  /** A versioned pointer equals its own version record, exactly one record of a
      key is latest, and a key whose pointer is missing or unversioned has no
      version records. */
  ghost predicate Consistent(t: Table) {
    forall rk {:trigger RecordOk(t, rk)} :: rk in t ==> RecordOk(t, rk)
  }

  // ------------------------------------------------------------- transactions

  function Displaced(info: ObjectInfo, time: int): ObjectInfo {
    info.(isLatest := false, noncurrentSince := Some(time))
  }

  /** What `rk` holds after `info` is stored as the newest version of its key. */
  function PutAt(t: Table, info: ObjectInfo, rk: RecordKey): Option<ObjectInfo> {
    if rk.key != info.key then
      Get(t, rk)
    else if rk.Pointer? || (info.versionId != "" && rk.versionId == info.versionId) then
      Some(info.(isLatest := true))
    else if info.versionId == "" then
      None
    else if Pointer(rk.key) in t && t[Pointer(rk.key)].versionId == rk.versionId != "" then
      Some(Displaced(t[Pointer(rk.key)], info.modified))
    else
      Get(t, rk)
  }

  function Put(t: Table, info: ObjectInfo): (r: Table)
  {
    var prior := if Pointer(info.key) in t then t[Pointer(info.key)].versionId else "";
    var touched := t.Keys + {Pointer(info.key), Version(info.key, info.versionId), Version(info.key, prior)};
    map rk | rk in touched && PutAt(t, info, rk).Some? :: PutAt(t, info, rk).value
  }

  /** Among the versions `ids`, the one most recently modified; of equals, the
      first in key order. */
  ghost predicate IsNewest(t: Table, key: Bytes, ids: set<Bytes>, v: Bytes)
    requires forall w :: w in ids ==> Version(key, w) in t
  {
    && v in ids
    && forall w :: w in ids ==>
         || t[Version(key, w)].modified < t[Version(key, v)].modified
         || (t[Version(key, w)].modified == t[Version(key, v)].modified && Le(v, w))
  }

  lemma NewestExists(t: Table, key: Bytes, ids: set<Bytes>)
    requires ids != {}
    requires forall w :: w in ids ==> Version(key, w) in t
    ensures exists v :: IsNewest(t, key, ids, v)
  {
    var y :| y in ids;
    var rest := ids - {y};
    if rest == {} {
      assert ids == {y};
      assert IsNewest(t, key, ids, y);
    } else {
      NewestExists(t, key, rest);
      var m :| IsNewest(t, key, rest, m);
      LtTotal(m, y);
      var tm, ty := t[Version(key, m)].modified, t[Version(key, y)].modified;
      if ty > tm || (ty == tm && Lt(y, m)) {
        forall w | w in ids && w != y
          ensures t[Version(key, w)].modified < ty || (t[Version(key, w)].modified == ty && Le(y, w))
        {
          assert w in rest;
          if ty == tm && Le(m, w) {
            LeLtTransitive(y, m, w);
          }
        }
        assert IsNewest(t, key, ids, y);
      } else {
        assert forall w :: w in ids ==> w == y || w in rest;
        assert IsNewest(t, key, ids, m);
      }
    }
  }

  lemma NewestUnique(t: Table, key: Bytes, ids: set<Bytes>, v: Bytes, w: Bytes)
    requires forall x :: x in ids ==> Version(key, x) in t
    requires IsNewest(t, key, ids, v) && IsNewest(t, key, ids, w)
    ensures v == w
  {
    if v != w {
      LtAsymmetric(v, w);
    }
  }

  ghost function Newest(t: Table, key: Bytes, except: Bytes): (v: Option<Bytes>)
    ensures v.None? <==> VersionIds(t, key) - {except} == {}
    ensures v.Some? ==> IsNewest(t, key, VersionIds(t, key) - {except}, v.value)
  {
    var ids := VersionIds(t, key) - {except};
    if ids == {} then
      None
    else
      NewestExists(t, key, ids);
      var v :| IsNewest(t, key, ids, v);
      Some(v)
  }

  ghost predicate IsCurrent(t: Table, key: Bytes, v: Bytes) {
    Pointer(key) in t && t[Pointer(key)].versionId == v
  }

  /** What `rk` holds after version `v` of `key` is deleted. */
  ghost function DeleteVersionAt(t: Table, key: Bytes, v: Bytes, rk: RecordKey): Option<ObjectInfo> {
    if rk == Version(key, v) then
      None
    else if rk.key != key || !IsCurrent(t, key, v) then
      Get(t, rk)
    else
      match Newest(t, key, v)
      case None => None
      case Some(n) =>
        if rk.Pointer? || rk.versionId == n then
          Some(t[Version(key, n)].(isLatest := true))
        else
          Get(t, rk)
  }

  ghost function DeleteVersion(t: Table, key: Bytes, v: Bytes): Table {
    map rk | rk in t && DeleteVersionAt(t, key, v, rk).Some? :: DeleteVersionAt(t, key, v, rk).value
  }

  function DeleteKey(t: Table, key: Bytes): Table {
    map rk | rk in t && rk.key != key :: t[rk]
  }

  /** Stores a record exactly as given. */
  function PutRaw(t: Table, info: ObjectInfo): Table {
    var t1 := if info.versionId != "" then t[Version(info.key, info.versionId) := info] else t;
    if info.isLatest then t1[Pointer(info.key) := info] else t1
  }

  /** The only way `PutRaw` is used: re-recording an unversioned object as the
      "null" version of its key. */
  ghost predicate Promotes(t: Table, info: ObjectInfo) {
    && Pointer(info.key) in t
    && t[Pointer(info.key)].versionId == ""
    && info.blobId != ""
    && info == t[Pointer(info.key)].(versionId := "null", blobId := info.blobId)
  }

  // -------------------------------------------------------------------- reads

  /** The record a read of `key` at `versionId` finds; "" asks for the current one.
      An object stored before versioning answers to "null". */
  function Lookup(t: Table, key: Bytes, versionId: Bytes): Option<ObjectInfo> {
    if versionId == "" then
      Get(t, Pointer(key))
    else if Version(key, versionId) in t then
      Some(t[Version(key, versionId)])
    else if versionId == "null" && Pointer(key) in t && t[Pointer(key)].versionId == "" then
      Some(t[Pointer(key)])
    else
      None
  }

  /** The version records `ids` of a key, in key order. */
  function InOrder(t: Table, key: Bytes, ids: set<Bytes>): (r: seq<ObjectInfo>)
    requires forall v :: v in ids ==> Version(key, v) in t
    ensures forall info :: info in r <==> exists v :: v in ids && t[Version(key, v)] == info
    decreases |ids|
  {
    if ids == {} then
      []
    else
      var v := First(ids);
      assert forall w :: w in ids ==> w == v || w in ids - {v};
      [t[Version(key, v)]] + InOrder(t, key, ids - {v})
  }

  /** Every stored version of a key once: the current one, then the others in
      key order. */
  function KeyVersions(t: Table, key: Bytes): seq<ObjectInfo> {
    if Pointer(key) in t then
      [t[Pointer(key)]] + InOrder(t, key, VersionIds(t, key) - {t[Pointer(key)].versionId})
    else
      []
  }

  /** The record keys that stand for a stored version of an object: every version
      record, and a pointer that has none. */
  predicate Primary(t: Table, rk: RecordKey) {
    rk in t && (rk.Pointer? ==> t[rk].versionId == "")
  }

  function PointerKeys(t: Table): (keys: set<Bytes>)
    ensures forall k :: k in keys <==> Pointer(k) in t
  {
    set rk | rk in t.Keys && rk.Pointer? :: rk.key
  }

  /** `KeyVersions` lists exactly the stored versions of a key. */
  lemma KeyVersionsAreStored(t: Table, key: Bytes, info: ObjectInfo)
    requires Consistent(t)
    ensures info in KeyVersions(t, key) <==>
            exists rk: RecordKey :: rk.key == key && Primary(t, rk) && t[rk] == info
  {
    if Pointer(key) in t {
      var current := t[Pointer(key)].versionId;
      assert RecordOk(t, Pointer(key));
      if info in KeyVersions(t, key) {
        if info == t[Pointer(key)] {
          var rk := if current == "" then Pointer(key) else Version(key, current);
          assert rk.key == key && Primary(t, rk) && t[rk] == info;
        } else {
          var v :| v in VersionIds(t, key) - {current} && t[Version(key, v)] == info;
          assert Primary(t, Version(key, v));
        }
      }
    }
    if exists rk: RecordKey :: rk.key == key && Primary(t, rk) && t[rk] == info {
      var rk: RecordKey :| rk.key == key && Primary(t, rk) && t[rk] == info;
      assert RecordOk(t, rk);
      assert rk.Version? ==> rk.versionId in VersionIds(t, key);
    }
  }

  // ------------------------------------------------- the transactions' effects

  ghost predicate Storable(info: ObjectInfo) {
    && (info.versionId == "" ==> !info.isDeleteMarker)
    && (info.isDeleteMarker || info.blobId != "")
  }

  lemma PutGet(t: Table, info: ObjectInfo, rk: RecordKey)
    ensures Get(Put(t, info), rk) == PutAt(t, info, rk)
  {
  }

  lemma DeleteVersionGet(t: Table, key: Bytes, v: Bytes, rk: RecordKey)
    ensures Get(DeleteVersion(t, key, v), rk) == DeleteVersionAt(t, key, v, rk)
  {
  }

  lemma PutConsistent(t: Table, info: ObjectInfo)
    requires Consistent(t) && Storable(info)
    ensures Consistent(Put(t, info))
  {
    var r := Put(t, info);
    forall rk | rk in r
      ensures RecordOk(r, rk)
    {
      PutGet(t, info, rk);
      PutGet(t, info, Pointer(rk.key));
      PutGet(t, info, Version(rk.key, r[rk].versionId));
      if rk.key != info.key {
        assert RecordOk(t, rk);
        forall v
          ensures Get(r, Version(rk.key, v)) == Get(t, Version(rk.key, v))
        {
          PutGet(t, info, Version(rk.key, v));
        }
      } else {
        if Pointer(rk.key) in t {
          assert RecordOk(t, Pointer(rk.key));
        }
        if rk in t {
          assert RecordOk(t, rk);
        }
        if rk.Pointer? && info.versionId == "" {
          forall v
            ensures Version(rk.key, v) !in r
          {
            PutGet(t, info, Version(rk.key, v));
          }
        }
      }
    }
  }

  lemma DeleteVersionConsistent(t: Table, key: Bytes, v: Bytes)
    requires Consistent(t) && v != ""
    ensures Consistent(DeleteVersion(t, key, v))
  {
    var r := DeleteVersion(t, key, v);
    forall rk | rk in r
      ensures RecordOk(r, rk)
    {
      assert RecordOk(t, rk);
      if rk.key == key && IsCurrent(t, key, v) {
        assert RecordOk(t, Pointer(key));
        var n := Newest(t, key, v);
        assert n.Some?;
        assert RecordOk(t, Version(key, n.value));
      } else {
        assert Get(r, rk) == Get(t, rk);
      }
    }
  }

  lemma DeleteKeyConsistent(t: Table, key: Bytes)
    requires Consistent(t)
    ensures Consistent(DeleteKey(t, key))
  {
    var r := DeleteKey(t, key);
    forall rk | rk in r
      ensures RecordOk(r, rk)
    {
      assert RecordOk(t, rk);
    }
  }

  lemma PromotionConsistent(t: Table, info: ObjectInfo)
    requires Consistent(t) && Promotes(t, info)
    ensures Consistent(PutRaw(t, info))
  {
    var r := PutRaw(t, info);
    assert RecordOk(t, Pointer(info.key));
    forall rk | rk in r
      ensures RecordOk(r, rk)
    {
      if rk in t {
        assert RecordOk(t, rk);
      }
    }
  }
}
