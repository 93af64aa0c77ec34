/** The record store refines a history: per key, the list of its versions in the
    order they were written. */
module History {
  import opened ByteOrder
  import opened Records
  import opened MetadataStores
  import opened Publication

  /** The versions of one key, oldest first. */
  type Chronicle = seq<ObjectInfo>

  function Last(h: Chronicle): ObjectInfo
    requires h != []
  {
    h[|h| - 1]
  }

  predicate Named(h: Chronicle, v: Bytes) {
    exists i :: 0 <= i < |h| && h[i].versionId == v
  }

  /** Written in order, each under its own version ID, the last one current; an
      unversioned object is alone. */
  ghost predicate Chronological(key: Bytes, h: Chronicle) {
    && (forall i, j :: 0 <= i < j < |h| ==> h[i].modified < h[j].modified && h[i].versionId != h[j].versionId)
    && (forall i :: 0 <= i < |h| ==> h[i].key == key && (h[i].isLatest <==> i == |h| - 1))
    && (|h| > 1 ==> forall i :: 0 <= i < |h| ==> h[i].versionId != "")
  }

  /** The records of `key` are exactly those of the chronicle. */
  ghost predicate Represents(t: Table, key: Bytes, h: Chronicle) {
    && (h == [] <==> Pointer(key) !in t)
    && (h != [] ==> Get(t, Pointer(key)) == Some(Last(h)))
    && (forall v :: Version(key, v) in t <==> v != "" && Named(h, v))
    && (forall i :: 0 <= i < |h| && h[i].versionId != "" ==> Get(t, Version(key, h[i].versionId)) == Some(h[i]))
  }

  // ------------------------------------------------------ operations on history

  function Without(h: Chronicle, v: Bytes): (r: Chronicle)
    ensures |r| <= |h|
  {
    if h == [] then []
    else if Last(h).versionId == v then Without(h[..|h| - 1], v)
    else Without(h[..|h| - 1], v) + [Last(h)]
  }

  function Retire(h: Chronicle, time: int): Chronicle {
    if h == [] then [] else h[|h| - 1 := Displaced(Last(h), time)]
  }

  function Expose(h: Chronicle): Chronicle {
    if h == [] then [] else h[|h| - 1 := Last(h).(isLatest := true)]
  }

  /** A write takes over its version ID and becomes the current version. An
      unversioned write leaves nothing else. */
  function Written(h: Chronicle, info: ObjectInfo): Chronicle {
    if info.versionId == "" || (h != [] && Last(h).versionId == "") then
      [info.(isLatest := true)]
    else
      Without(Retire(h, info.modified), info.versionId) + [info.(isLatest := true)]
  }

  /** Deleting a version exposes the one written before it. */
  function Deleted(h: Chronicle, v: Bytes): Chronicle {
    Expose(Without(h, v))
  }

  function Step(h: Chronicle, key: Bytes, txn: Txn): Chronicle {
    match txn
    case PutMeta(info) => if info.key == key then Written(h, info) else h
    case PutMetaRaw(info) => if info.key == key then [info] else h
    case DeleteMeta(k, v) => if k != key then h else if v == "" then [] else Deleted(h, v)
  }

  // -------------------------------------------------------- lists of versions

  lemma {:induction false} WithoutAbsent(h: Chronicle, v: Bytes)
    requires !Named(h, v)
    ensures Without(h, v) == h
  {
    if h != [] {
      assert h[|h| - 1].versionId != v;
      assert forall w :: Named(h[..|h| - 1], w) ==> Named(h, w);
      WithoutAbsent(h[..|h| - 1], v);
      assert h[..|h| - 1] + [Last(h)] == h;
    }
  }

  /** Version IDs being distinct, removing one cuts out its single element. */
  lemma {:induction false} WithoutAt(h: Chronicle, p: nat)
    requires p < |h|
    requires forall i, j :: 0 <= i < j < |h| ==> h[i].versionId != h[j].versionId
    ensures Without(h, h[p].versionId) == h[..p] + h[p + 1..]
    decreases |h|
  {
    var front := h[..|h| - 1];
    if p == |h| - 1 {
      forall i | 0 <= i < |front|
        ensures front[i].versionId != h[p].versionId
      {
        assert front[i] == h[i];
      }
      WithoutAbsent(front, h[p].versionId);
      assert h[p + 1..] == [];
    } else {
      assert front[p] == h[p];
      WithoutAt(front, p);
      assert front[..p] == h[..p] && front[p + 1..] + [Last(h)] == h[p + 1..];
    }
  }

  ghost function Position(h: Chronicle, v: Bytes): (p: nat)
    requires Named(h, v)
    ensures p < |h| && h[p].versionId == v
  {
    var p :| 0 <= p < |h| && h[p].versionId == v;
    p
  }

  /** Where the element at `i` stood before position `p` was cut out. */
  function Uncut(p: nat, i: nat): nat {
    if i < p then i else i + 1
  }

  /** `Without` in terms of positions; nothing is cut if `v` does not occur. */
  lemma WithoutShape(h: Chronicle, v: Bytes) returns (p: nat)
    requires forall i, j :: 0 <= i < j < |h| ==> h[i].versionId != h[j].versionId
    ensures p <= |h| && (p < |h| <==> Named(h, v)) && (p < |h| ==> h[p].versionId == v)
    ensures |Without(h, v)| == if p < |h| then |h| - 1 else |h|
    ensures forall i :: 0 <= i < |Without(h, v)| ==> Without(h, v)[i] == h[Uncut(p, i)]
    ensures forall w :: w != v ==> (Named(Without(h, v), w) <==> Named(h, w))
  {
    if Named(h, v) {
      p := Position(h, v);
      WithoutAt(h, p);
      forall w | w != v && Named(h, w)
        ensures Named(Without(h, v), w)
      {
        var q := Position(h, w);
        assert Without(h, v)[if q < p then q else q - 1] == h[q];
      }
    } else {
      p := |h|;
      WithoutAbsent(h, v);
    }
  }

  // ---------------------------------------------------------------- refinement

  lemma Frame(t: Table, u: Table, key: Bytes, h: Chronicle)
    requires Represents(t, key, h)
    requires forall rk: RecordKey :: rk.key == key ==> Get(u, rk) == Get(t, rk)
    ensures Represents(u, key, h)
  {
    forall v
      ensures Version(key, v) in u <==> Version(key, v) in t
    {
      assert Get(u, Version(key, v)) == Get(t, Version(key, v));
    }
    assert Get(u, Pointer(key)) == Get(t, Pointer(key));
  }

  lemma WriteRefines(t: Table, h: Chronicle, info: ObjectInfo)
    requires Represents(t, info.key, h) && Chronological(info.key, h)
    requires h != [] ==> Last(h).modified < info.modified
    ensures Represents(Put(t, info), info.key, Written(h, info))
    ensures Chronological(info.key, Written(h, info))
  {
    var u, key := Put(t, info), info.key;
    forall rk
      ensures Get(u, rk) == PutAt(t, info, rk)
    {
      PutGet(t, info, rk);
    }
    if info.versionId == "" || (h != [] && Last(h).versionId == "") {
      AloneRefines(t, u, h, info);
    } else {
      NamesAfterWrite(t, u, h, info);
      RecordsAfterWrite(t, u, h, info);
      OrderAfterWrite(h, info);
      assert Get(u, Pointer(key)) == PutAt(t, info, Pointer(key));
    }
  }

  lemma AloneRefines(t: Table, u: Table, h: Chronicle, info: ObjectInfo)
    requires Represents(t, info.key, h) && Chronological(info.key, h)
    requires info.versionId == "" || (h != [] && Last(h).versionId == "")
    requires forall rk: RecordKey :: rk.key == info.key ==> Get(u, rk) == PutAt(t, info, rk)
    ensures Represents(u, info.key, Written(h, info))
  {
    var r, key := Written(h, info), info.key;
    assert Get(u, Pointer(key)) == PutAt(t, info, Pointer(key));
    forall v
      ensures Get(u, Version(key, v)) == if v != "" && v == info.versionId then Some(r[0]) else None
    {
      assert Get(u, Version(key, v)) == PutAt(t, info, Version(key, v));
      assert Version(key, v) in t <==> v != "" && Named(h, v);
    }
    forall v
      ensures Version(key, v) in u <==> v != "" && Named(r, v)
    {
      assert Named(r, v) <==> r[0].versionId == v;
      assert Get(u, Version(key, v)) == if v != "" && v == info.versionId then Some(r[0]) else None;
    }
  }

  lemma NamesAfterWrite(t: Table, u: Table, h: Chronicle, info: ObjectInfo)
    requires Represents(t, info.key, h) && Chronological(info.key, h)
    requires info.versionId != "" && (h != [] ==> Last(h).versionId != "")
    requires forall rk: RecordKey :: rk.key == info.key ==> Get(u, rk) == PutAt(t, info, rk)
    ensures forall v :: Version(info.key, v) in u <==> v != "" && Named(Written(h, info), v)
  {
    forall v
      ensures Version(info.key, v) in u <==> v != "" && Named(Written(h, info), v)
    {
      assert Get(u, Version(info.key, v)) == PutAt(t, info, Version(info.key, v));
      NamedAfterWrite(h, info, v);
      assert h != [] ==> Named(h, h[|h| - 1].versionId);
    }
  }

  lemma RecordsAfterWrite(t: Table, u: Table, h: Chronicle, info: ObjectInfo)
    requires Represents(t, info.key, h) && Chronological(info.key, h)
    requires info.versionId != "" && (h != [] ==> Last(h).versionId != "")
    requires forall rk: RecordKey :: rk.key == info.key ==> Get(u, rk) == PutAt(t, info, rk)
    ensures forall i :: 0 <= i < |Written(h, info)| && Written(h, info)[i].versionId != "" ==>
              Get(u, Version(info.key, Written(h, info)[i].versionId)) == Some(Written(h, info)[i])
  {
    var r, retired := Written(h, info), Retire(h, info.modified);
    var p := WithoutShape(retired, info.versionId);
    forall i | 0 <= i < |r| && r[i].versionId != ""
      ensures Get(u, Version(info.key, r[i].versionId)) == Some(r[i])
    {
      assert Get(u, Version(info.key, r[i].versionId)) == PutAt(t, info, Version(info.key, r[i].versionId));
      if i < |r| - 1 {
        var j := Uncut(p, i);
        assert r[i] == retired[j] && retired[j].versionId == h[j].versionId;
        assert Get(t, Version(info.key, h[j].versionId)) == Some(h[j]);
      }
    }
  }

  lemma OrderAfterWrite(h: Chronicle, info: ObjectInfo)
    requires Chronological(info.key, h) && (h != [] ==> Last(h).modified < info.modified)
    requires info.versionId != "" && (h != [] ==> Last(h).versionId != "")
    ensures Chronological(info.key, Written(h, info))
  {
    var r, retired := Written(h, info), Retire(h, info.modified);
    var p := WithoutShape(retired, info.versionId);
    forall i | 0 <= i < |r| - 1
      ensures r[i].modified == h[Uncut(p, i)].modified && r[i].versionId == h[Uncut(p, i)].versionId
      ensures r[i].versionId != info.versionId && r[i].key == info.key && !r[i].isLatest
      ensures r[i].modified < info.modified && r[i].versionId != ""
    {
      assert r[i] == retired[Uncut(p, i)];
    }
  }

  lemma NamedAfterWrite(h: Chronicle, info: ObjectInfo, v: Bytes)
    requires info.versionId != "" && (h != [] ==> Last(h).versionId != "")
    requires forall i, j :: 0 <= i < j < |h| ==> h[i].versionId != h[j].versionId
    ensures Named(Written(h, info), v) <==> v == info.versionId || Named(h, v)
  {
    var retired, r := Retire(h, info.modified), Written(h, info);
    var p := WithoutShape(retired, info.versionId);
    assert forall i :: 0 <= i < |h| ==> retired[i].versionId == h[i].versionId;
    if Named(h, v) {
      assert retired[Position(h, v)].versionId == v;
    }
    if Named(retired, v) {
      assert h[Position(retired, v)].versionId == v;
    }
    assert r[|r| - 1].versionId == info.versionId;
    var kept := Without(retired, info.versionId);
    if Named(kept, v) {
      assert r[Position(kept, v)].versionId == v;
    }
    if Named(r, v) && v != info.versionId {
      assert kept[Position(r, v)].versionId == v;
    }
  }

  lemma DeleteRefines(t: Table, key: Bytes, h: Chronicle, v: Bytes)
    requires Represents(t, key, h) && Chronological(key, h) && v != ""
    ensures Represents(DeleteVersion(t, key, v), key, Deleted(h, v))
    ensures Chronological(key, Deleted(h, v))
  {
    var u := DeleteVersion(t, key, v);
    OrderAfterDelete(key, h, v);
    forall rk
      ensures Get(u, rk) == DeleteVersionAt(t, key, v, rk)
    {
      DeleteVersionGet(t, key, v, rk);
    }
    if !Named(h, v) {
      WithoutAbsent(h, v);
      assert Deleted(h, v) == h;
      assert h != [] ==> h[|h| - 1].versionId != v;
      assert Version(key, v) !in t;
      Frame(t, u, key, h);
    } else {
      var p := Position(h, v);
      if p < |h| - 1 {
        RepresentsShorter(t, u, key, h, v, p);
      } else {
        RepresentsExposed(t, u, key, h, v);
      }
    }
  }

  lemma OrderAfterDelete(key: Bytes, h: Chronicle, v: Bytes)
    requires Chronological(key, h)
    ensures Chronological(key, Deleted(h, v))
  {
    var r := Deleted(h, v);
    var p := WithoutShape(h, v);
    forall i | 0 <= i < |r|
      ensures r[i].modified == h[Uncut(p, i)].modified && r[i].versionId == h[Uncut(p, i)].versionId && r[i].key == key
      ensures r[i].isLatest <==> i == |r| - 1
    {
    }
  }

  lemma NamesAfterCut(h: Chronicle, p: nat, w: Bytes)
    requires p < |h| && forall i, j :: 0 <= i < j < |h| ==> h[i].versionId != h[j].versionId
    ensures Named(h[..p] + h[p + 1..], w) <==> Named(h, w) && w != h[p].versionId
  {
    var r := h[..p] + h[p + 1..];
    assert forall i :: 0 <= i < |r| ==> r[i] == h[Uncut(p, i)];
    if Named(r, w) {
      assert h[Uncut(p, Position(r, w))].versionId == w;
    }
    if Named(h, w) && w != h[p].versionId {
      var q := Position(h, w);
      assert r[if q < p then q else q - 1] == h[q];
    }
  }

  /** Deleting a version that is not current cuts it out. */
  lemma DeletedIsCut(key: Bytes, h: Chronicle, p: nat)
    requires Chronological(key, h) && p < |h| - 1
    ensures Deleted(h, h[p].versionId) == h[..p] + h[p + 1..]
  {
    WithoutAt(h, p);
    var r := h[..p] + h[p + 1..];
    assert r[|r| - 1] == Last(h);
    assert r[|r| - 1 := Last(h)] == r;
  }

  lemma CutElements(key: Bytes, h: Chronicle, p: nat)
    requires Chronological(key, h) && p < |h|
    ensures
      var r := h[..p] + h[p + 1..];
      |r| == |h| - 1 && forall i :: 0 <= i < |r| ==> r[i] == h[Uncut(p, i)] && r[i].versionId != h[p].versionId
  {
  }

  lemma RepresentsShorter(t: Table, u: Table, key: Bytes, h: Chronicle, v: Bytes, p: nat)
    requires Represents(t, key, h) && Chronological(key, h) && v != ""
    requires p < |h| - 1 && h[p].versionId == v
    requires forall rk: RecordKey :: rk.key == key ==> Get(u, rk) == if rk == Version(key, v) then None else Get(t, rk)
    ensures Represents(u, key, Deleted(h, v))
  {
    DeletedIsCut(key, h, p);
    forall w
      ensures Version(key, w) in u <==> w != "" && Named(h[..p] + h[p + 1..], w)
    {
      assert Get(u, Version(key, w)) == if w == v then None else Get(t, Version(key, w));
      NamesAfterCut(h, p, w);
    }
    CutElements(key, h, p);
    CutRepresents(t, u, key, h, v, p, h[..p] + h[p + 1..]);
  }

  lemma CutRepresents(t: Table, u: Table, key: Bytes, h: Chronicle, v: Bytes, p: nat, r: Chronicle)
    requires Represents(t, key, h) && p < |h| - 1 && |r| == |h| - 1
    requires forall i :: 0 <= i < |r| ==> r[i] == h[Uncut(p, i)] && r[i].versionId != v
    requires forall w :: Version(key, w) in u <==> w != "" && Named(r, w)
    requires forall rk: RecordKey :: rk.key == key ==> Get(u, rk) == if rk == Version(key, v) then None else Get(t, rk)
    ensures Represents(u, key, r)
  {
    assert Get(u, Pointer(key)) == Get(t, Pointer(key));
    assert Last(r) == Last(h);
    forall i | 0 <= i < |r| && r[i].versionId != ""
      ensures Get(u, Version(key, r[i].versionId)) == Some(r[i])
    {
      assert Get(u, Version(key, r[i].versionId)) == Get(t, Version(key, r[i].versionId));
    }
  }

  lemma IdsBeforeCurrent(t: Table, key: Bytes, h: Chronicle)
    requires Represents(t, key, h) && Chronological(key, h) && h != []
    ensures forall w :: w in VersionIds(t, key) - {Last(h).versionId} <==> w != "" && Named(h[..|h| - 1], w)
  {
    var n := |h| - 1;
    forall w
      ensures w in VersionIds(t, key) - {Last(h).versionId} <==> w != "" && Named(h[..n], w)
    {
      if Named(h, w) && w != h[n].versionId {
        assert h[..n][Position(h, w)] == h[Position(h, w)];
      }
      if Named(h[..n], w) {
        assert h[Position(h[..n], w)].versionId == w;
      }
    }
  }

  lemma PreviousIsNewest(t: Table, key: Bytes, h: Chronicle)
    requires Represents(t, key, h) && Chronological(key, h) && h != [] && Last(h).versionId != ""
    ensures Newest(t, key, Last(h).versionId) == if |h| == 1 then None else Some(h[|h| - 2].versionId)
  {
    var n, ids := |h| - 1, VersionIds(t, key) - {Last(h).versionId};
    IdsBeforeCurrent(t, key, h);
    if n > 0 {
      var w := h[n - 1].versionId;
      assert h[..n][n - 1].versionId == w;
      forall x | x in ids
        ensures t[Version(key, x)].modified < h[n - 1].modified || x == w
      {
        var q := Position(h[..n], x);
        assert Get(t, Version(key, h[q].versionId)) == Some(h[q]);
      }
      assert Get(t, Version(key, w)) == Some(h[n - 1]);
      assert IsNewest(t, key, ids, w);
      NewestUnique(t, key, ids, w, Newest(t, key, Last(h).versionId).value);
    } else {
      assert ids == {};
    }
  }

  /** Deleting the current version: the newest record left is the one written
      just before it. */
  lemma RepresentsExposed(t: Table, u: Table, key: Bytes, h: Chronicle, v: Bytes)
    requires Represents(t, key, h) && Chronological(key, h) && v != ""
    requires h != [] && Last(h).versionId == v
    requires forall rk: RecordKey :: rk.key == key ==> Get(u, rk) == DeleteVersionAt(t, key, v, rk)
    ensures Represents(u, key, Deleted(h, v))
  {
    var r, n := Deleted(h, v), |h| - 1;
    WithoutAt(h, n);
    assert h[..n] + h[n + 1..] == h[..n];
    assert Get(u, Pointer(key)) == DeleteVersionAt(t, key, v, Pointer(key));
    PreviousIsNewest(t, key, h);
    assert n > 0 ==> Get(t, Version(key, h[n - 1].versionId)) == Some(h[n - 1]);
    forall w
      ensures Version(key, w) in u <==> w != "" && Named(r, w)
    {
      assert Get(u, Version(key, w)) == DeleteVersionAt(t, key, v, Version(key, w));
      ExposedIsNamed(t, key, h, w);
      SameNames(r, h[..n], w);
    }
    forall i | 0 <= i < |r| && r[i].versionId != ""
      ensures Get(u, Version(key, r[i].versionId)) == Some(r[i])
    {
      assert Get(u, Version(key, r[i].versionId)) == DeleteVersionAt(t, key, v, Version(key, r[i].versionId));
      assert Get(t, Version(key, h[i].versionId)) == Some(h[i]);
    }
  }

  lemma ExposedIsNamed(t: Table, key: Bytes, h: Chronicle, w: Bytes)
    requires Represents(t, key, h) && Chronological(key, h) && h != [] && Last(h).versionId != ""
    ensures
      DeleteVersionAt(t, key, Last(h).versionId, Version(key, w)).Some? <==> w != "" && Named(h[..|h| - 1], w)
  {
    IdsBeforeCurrent(t, key, h);
    PreviousIsNewest(t, key, h);
    assert Version(key, w) in t && w != Last(h).versionId <==> w in VersionIds(t, key) - {Last(h).versionId};
  }

  lemma SameNames(a: Chronicle, b: Chronicle, w: Bytes)
    requires |a| == |b| && forall i :: 0 <= i < |a| ==> a[i].versionId == b[i].versionId
    ensures Named(a, w) <==> Named(b, w)
  {
  }

  // -------------------------------------------------------------------- runs

  function TxnKey(txn: Txn): Bytes {
    match txn
    case PutMeta(info) => info.key
    case PutMetaRaw(info) => info.key
    case DeleteMeta(key, _) => key
  }

  /** The store holds for `key` the versions of `h`, all written by `clock`. */
  ghost predicate Tracks(t: Table, key: Bytes, h: Chronicle, clock: int) {
    Consistent(t) && Represents(t, key, h) && Chronological(key, h) && UpTo(h, clock)
  }

  ghost predicate UpTo(h: Chronicle, clock: int) {
    h != [] ==> Last(h).modified <= clock
  }

  /** A write of the key carries a time later than every write of it before. */
  ghost predicate Admissible(t: Table, key: Bytes, clock: int, txn: Txn) {
    match txn
    case PutMeta(info) => Storable(info) && (info.key == key ==> info.modified > clock)
    case PutMetaRaw(info) => Promotes(t, info)
    case DeleteMeta(_, _) => true
  }

  function Tick(key: Bytes, clock: int, txn: Txn): int {
    match txn
    case PutMeta(info) => if info.key == key && info.modified > clock then info.modified else clock
    case _ => clock
  }

  function TickAll(key: Bytes, clock: int, txns: seq<Txn>): int
    decreases |txns|
  {
    if txns == [] then clock else TickAll(key, Tick(key, clock, txns[0]), txns[1..])
  }

  ghost predicate AdmissibleRun(t: Table, key: Bytes, clock: int, txns: seq<Txn>)
    decreases |txns|
  {
    txns == [] ||
    (Admissible(t, key, clock, txns[0]) && AdmissibleRun(Apply(t, txns[0]), key, Tick(key, clock, txns[0]), txns[1..]))
  }

  ghost function ApplyAll(t: Table, txns: seq<Txn>): Table
    decreases |txns|
  {
    if txns == [] then t else ApplyAll(Apply(t, txns[0]), txns[1..])
  }

  function StepAll(h: Chronicle, key: Bytes, txns: seq<Txn>): Chronicle
    decreases |txns|
  {
    if txns == [] then h else StepAll(Step(h, key, txns[0]), key, txns[1..])
  }

  lemma PromotionRefines(t: Table, h: Chronicle, info: ObjectInfo)
    requires Represents(t, info.key, h) && Chronological(info.key, h) && Promotes(t, info)
    ensures Represents(PutRaw(t, info), info.key, [info]) && Chronological(info.key, [info])
    ensures h == [t[Pointer(info.key)]]
  {
    assert Get(t, Pointer(info.key)) == Some(Last(h));
    forall v
      ensures Version(info.key, v) in PutRaw(t, info) <==> v != "" && Named([info], v)
    {
      assert Version(info.key, v) in t <==> v != "" && Named(h, v);
      assert Named([info], v) <==> [info][0].versionId == v;
    }
  }

  lemma TxnConsistent(t: Table, txn: Txn)
    requires Consistent(t)
    requires txn.PutMeta? ==> Storable(txn.info)
    requires txn.PutMetaRaw? ==> Promotes(t, txn.info)
    ensures Consistent(Apply(t, txn))
  {
    match txn
    case PutMeta(info) => PutConsistent(t, info);
    case PutMetaRaw(info) => PromotionConsistent(t, info);
    case DeleteMeta(key, v) =>
      if v == "" {
        DeleteKeyConsistent(t, key);
      } else {
        DeleteVersionConsistent(t, key, v);
      }
  }

  lemma TxnTracks(t: Table, key: Bytes, h: Chronicle, clock: int, txn: Txn)
    requires Tracks(t, key, h, clock) && Admissible(t, key, clock, txn)
    ensures Tracks(Apply(t, txn), key, Step(h, key, txn), Tick(key, clock, txn))
  {
    TxnConsistent(t, txn);
    if TxnKey(txn) != key {
      OtherKeys(t, txn, key);
      Frame(t, Apply(t, txn), key, h);
    } else {
      match txn
      case PutMeta(info) => WriteRefines(t, h, info);
      case PutMetaRaw(info) => PromotionRefines(t, h, info);
      case DeleteMeta(_, v) =>
        if v == "" {
          assert Represents(Apply(t, txn), key, []);
        } else {
          DeleteRefines(t, key, h, v);
          DeletedUpTo(h, key, v, clock);
        }
    }
  }

  lemma OtherKeys(t: Table, txn: Txn, k: Bytes)
    requires k != TxnKey(txn)
    ensures forall rk: RecordKey :: rk.key == k ==> Get(Apply(t, txn), rk) == Get(t, rk)
  {
    forall rk: RecordKey | rk.key == k
      ensures Get(Apply(t, txn), rk) == Get(t, rk)
    {
      match txn
      case PutMeta(info) => PutGet(t, info, rk);
      case PutMetaRaw(info) =>
      case DeleteMeta(key, v) =>
        if v != "" {
          DeleteVersionGet(t, key, v, rk);
        }
    }
  }

  lemma DeletedUpTo(h: Chronicle, key: Bytes, v: Bytes, clock: int)
    requires Chronological(key, h) && UpTo(h, clock)
    ensures UpTo(Deleted(h, v), clock)
  {
    var p := WithoutShape(h, v);
    var r := Deleted(h, v);
    if r != [] {
      var j := Uncut(p, |r| - 1);
      assert Last(r).modified == h[j].modified;
      assert j < |h| - 1 ==> h[j].modified < h[|h| - 1].modified;
    }
  }

  /** Whatever is written, promoted and deleted, the store holds for a key exactly
      the history's versions, if the times of the writes of that key increase. */
  lemma {:induction false} RunTracks(t: Table, key: Bytes, h: Chronicle, clock: int, txns: seq<Txn>)
    requires Tracks(t, key, h, clock) && AdmissibleRun(t, key, clock, txns)
    ensures Tracks(ApplyAll(t, txns), key, StepAll(h, key, txns), TickAll(key, clock, txns))
    decreases |txns|
  {
    if txns != [] {
      TxnTracks(t, key, h, clock, txns[0]);
      RunTracks(Apply(t, txns[0]), key, Step(h, key, txns[0]), Tick(key, clock, txns[0]), txns[1..]);
    }
  }

  /** What a read of the history at a version finds; "" asks for the version
      written last. */
  ghost function Recall(h: Chronicle, v: Bytes): Option<ObjectInfo> {
    if h == [] then None
    else if v == "" then Some(Last(h))
    else if Named(h, v) then Some(h[Position(h, v)])
    else if v == "null" && Last(h).versionId == "" then Some(Last(h))
    else None
  }

  /** A read without a version ID returns the most recently written version that
      survives; a read of a version returns that version of the history, if it has
      one. */
  lemma ReadsFollowHistory(t: Table, key: Bytes, h: Chronicle, clock: int, txns: seq<Txn>, v: Bytes)
    requires Tracks(t, key, h, clock) && AdmissibleRun(t, key, clock, txns)
    ensures Lookup(ApplyAll(t, txns), key, v) == Recall(StepAll(h, key, txns), v)
  {
    RunTracks(t, key, h, clock, txns);
    var h1, u := StepAll(h, key, txns), ApplyAll(t, txns);
    assert Represents(u, key, h1);
    if v != "" && Named(h1, v) {
      assert Get(u, Version(key, h1[Position(h1, v)].versionId)) == Some(h1[Position(h1, v)]);
    }
  }

  // ------------------------------------------------ when write times go back

  /** Of the versions left after the current one goes, the one written last is
      also the one the store takes for newest. */
  predicate LastIsNewest(h: Chronicle)
    requires |h| >= 2
  {
    var last := h[|h| - 2];
    forall i :: 0 <= i < |h| - 2 ==>
      h[i].modified < last.modified || (h[i].modified == last.modified && Le(last.versionId, h[i].versionId))
  }

  /** Without the assumption on write times: deleting the current version exposes
      the version written before it if and only if its time is the newest. */
  lemma ExposesPreviousIff(t: Table, key: Bytes, h: Chronicle)
    requires Represents(t, key, h) && |h| >= 2
    requires forall i, j :: 0 <= i < j < |h| ==> h[i].versionId != h[j].versionId
    requires forall i :: 0 <= i < |h| ==> h[i].versionId != ""
    ensures Get(DeleteVersion(t, key, Last(h).versionId), Pointer(key)) == Some(h[|h| - 2].(isLatest := true)) <==>
            LastIsNewest(h)
  {
    var v, w, ids := Last(h).versionId, h[|h| - 2].versionId, VersionIds(t, key) - {Last(h).versionId};
    DeleteVersionGet(t, key, v, Pointer(key));
    forall i | 0 <= i < |h| - 1
      ensures h[i].versionId in ids && Get(t, Version(key, h[i].versionId)) == Some(h[i])
    {
      assert Named(h, h[i].versionId);
    }
    forall x | x in ids
      ensures exists i :: 0 <= i < |h| - 1 && h[i].versionId == x
    {
      assert Position(h, x) < |h| - 1;
    }
    assert LastIsNewest(h) <==> IsNewest(t, key, ids, w) by {
      if LastIsNewest(h) {
        forall x | x in ids
          ensures t[Version(key, x)].modified < t[Version(key, w)].modified ||
                  (t[Version(key, x)].modified == t[Version(key, w)].modified && Le(w, x))
        {
          var i :| 0 <= i < |h| - 1 && h[i].versionId == x;
        }
      }
    }
    var n := Newest(t, key, v).value;
    if IsNewest(t, key, ids, w) {
      NewestUnique(t, key, ids, w, n);
    }
    var m :| 0 <= m < |h| - 1 && h[m].versionId == n;
  }

  function Sample(versionId: Bytes, modified: int): ObjectInfo {
    ObjectInfo("k", 0, Digest([]), [], modified, versionId, false, None, false, versionId)
  }

  function OneWrite(): Table {
    map[Pointer("k") := Sample("a", 10).(isLatest := true), Version("k", "a") := Sample("a", 10).(isLatest := true)]
  }

  function TwoWrites(): Table {
    map[Pointer("k") := Sample("b", 5).(isLatest := true),
        Version("k", "a") := Displaced(Sample("a", 10), 5),
        Version("k", "b") := Sample("b", 5).(isLatest := true)]
  }

  function ThreeWrites(): Table {
    map[Pointer("k") := Sample("c", 7).(isLatest := true),
        Version("k", "a") := Displaced(Sample("a", 10), 5),
        Version("k", "b") := Displaced(Sample("b", 5), 7),
        Version("k", "c") := Sample("c", 7).(isLatest := true)]
  }

  lemma FirstWrite()
    ensures Put(map[], Sample("a", 10)) == OneWrite()
  {
    SameTable(Put(map[], Sample("a", 10)), OneWrite());
  }

  lemma SecondWrite()
    ensures Put(OneWrite(), Sample("b", 5)) == TwoWrites()
  {
    SameTable(Put(OneWrite(), Sample("b", 5)), TwoWrites());
  }

  lemma ThirdWrite()
    ensures Put(TwoWrites(), Sample("c", 7)) == ThreeWrites()
  {
    SameTable(Put(TwoWrites(), Sample("c", 7)), ThreeWrites());
  }

  lemma NewestOfThree()
    ensures Newest(ThreeWrites(), "k", "c") == Some("a")
  {
    var t := ThreeWrites();
    var ids := VersionIds(t, "k") - {"c"};
    assert ids == {"a", "b"};
    assert IsNewest(t, "k", ids, "a");
    NewestUnique(t, "k", ids, "a", Newest(t, "k", "c").value);
  }

  /** A clock set back between two writes is enough: after writes at times 10, 5
      and 7, deleting the third version brings back the first. */
  lemma ClockSetBackExposesOlder()
    ensures
      var t := Put(Put(Put(map[], Sample("a", 10)), Sample("b", 5)), Sample("c", 7));
      Lookup(DeleteVersion(t, "k", "c"), "k", "").Some? && Lookup(DeleteVersion(t, "k", "c"), "k", "").value.versionId == "a"
  {
    FirstWrite();
    SecondWrite();
    ThirdWrite();
    NewestOfThree();
    DeleteVersionGet(ThreeWrites(), "k", "c", Pointer("k"));
  }
}
