/** One-pass usage accounting over pointers and version records. */
module Usage {
  import opened ByteOrder
  import opened Records

  datatype UsageCounts = UsageCounts(
    objects: int,
    versions: int,
    deleteMarkers: int,
    logicalBytes: int,
    currentBytes: int,
    previousBytes: int)

  // ------------------------------------------------------------ sums over records

  ghost function Sum(t: Table, rks: set<RecordKey>): nat
    requires rks <= t.Keys
  {
    if rks == {} then
      0
    else
      var rk :| rk in rks;
      t[rk].size + Sum(t, rks - {rk})
  }

  lemma {:induction false} SumWithout(t: Table, rks: set<RecordKey>, rk: RecordKey)
    requires rks <= t.Keys && rk in rks
    ensures Sum(t, rks) == t[rk].size + Sum(t, rks - {rk})
  {
    var picked :| picked in rks && Sum(t, rks) == t[picked].size + Sum(t, rks - {picked});
    if picked != rk {
      SumWithout(t, rks - {picked}, rk);
      SumWithout(t, rks - {rk}, picked);
      assert rks - {picked} - {rk} == rks - {rk} - {picked};
    }
  }

  lemma SumWith(t: Table, rks: set<RecordKey>, rk: RecordKey)
    requires rks <= t.Keys && rk in t && rk !in rks
    ensures Sum(t, rks + {rk}) == Sum(t, rks) + t[rk].size
  {
    SumWithout(t, rks + {rk}, rk);
    assert rks + {rk} - {rk} == rks;
  }

  lemma {:induction false} SumUnion(t: Table, a: set<RecordKey>, b: set<RecordKey>)
    requires a <= t.Keys && b <= t.Keys && a !! b
    ensures Sum(t, a + b) == Sum(t, a) + Sum(t, b)
  {
    if b == {} {
      assert a + b == a;
    } else {
      var rk :| rk in b;
      SumUnion(t, a, b - {rk});
      SumWithout(t, b, rk);
      SumWith(t, a + (b - {rk}), rk);
      assert a + (b - {rk}) + {rk} == a + b;
    }
  }

  // --------------------------------------------------------------- what is counted

  function CurrentObjects(t: Table): set<RecordKey> {
    set rk | rk in t.Keys && rk.Pointer? && !t[rk].isDeleteMarker
  }

  /** Every stored version once, unversioned objects included. */
  function StoredVersions(t: Table): set<RecordKey> {
    set rk | rk in t.Keys && Primary(t, rk) && !t[rk].isDeleteMarker
  }

  function StoredMarkers(t: Table): set<RecordKey> {
    set rk | rk in t.Keys && Primary(t, rk) && t[rk].isDeleteMarker
  }

  function PreviousVersions(t: Table): set<RecordKey> {
    set rk | rk in t.Keys && rk.Version? && !t[rk].isLatest && !t[rk].isDeleteMarker
  }

  /** The record a pointer stands for: its version record, or itself. */
  function Stands(t: Table, rk: RecordKey): RecordKey
    requires rk in t
  {
    if t[rk].versionId == "" then rk else Version(rk.key, t[rk].versionId)
  }

  function StandIns(t: Table, rks: set<RecordKey>): (r: set<RecordKey>)
    requires rks <= t.Keys
    ensures forall x :: x in r <==> exists rk :: rk in rks && Stands(t, rk) == x
  {
    set rk | rk in rks :: Stands(t, rk)
  }

  lemma {:induction false} SameBytes(t: Table, rks: set<RecordKey>)
    requires Consistent(t) && rks <= t.Keys && forall rk :: rk in rks ==> rk.Pointer?
    ensures StandIns(t, rks) <= t.Keys && Sum(t, StandIns(t, rks)) == Sum(t, rks)
    decreases |rks|
  {
    if rks == {} {
      assert StandIns(t, rks) == {};
    } else {
      var rk :| rk in rks;
      assert RecordOk(t, rk);
      SameBytes(t, rks - {rk});
      var rest := StandIns(t, rks - {rk});
      assert Stands(t, rk) !in rest;
      assert StandIns(t, rks) == rest + {Stands(t, rk)};
      SumWith(t, rest, Stands(t, rk));
      SumWithout(t, rks, rk);
    }
  }

  /** The stored versions are those that pointers stand for and the previous ones. */
  lemma VersionsSplit(t: Table)
    requires Consistent(t)
    ensures StandIns(t, CurrentObjects(t)) !! PreviousVersions(t)
    ensures StandIns(t, CurrentObjects(t)) + PreviousVersions(t) == StoredVersions(t)
  {
    var current, previous, stored := StandIns(t, CurrentObjects(t)), PreviousVersions(t), StoredVersions(t);
    forall x | x in current
      ensures x in stored && x !in previous
    {
      var rk :| rk in CurrentObjects(t) && Stands(t, rk) == x;
      assert RecordOk(t, rk);
    }
    forall x | x in previous
      ensures x in stored
    {
    }
    forall x | x in stored
      ensures x in current || x in previous
    {
      assert RecordOk(t, x);
      if x.Pointer? {
        assert Stands(t, x) == x;
      } else if t[x].isLatest {
        var rk := Pointer(x.key);
        assert RecordOk(t, rk);
        assert Stands(t, rk) == x;
      }
    }
  }

  /** Bytes of versions less bytes of current objects are the bytes of previous ones. */
  lemma PreviousBytes(t: Table)
    requires Consistent(t)
    ensures Sum(t, StoredVersions(t)) - Sum(t, CurrentObjects(t)) == Sum(t, PreviousVersions(t))
  {
    SameBytes(t, CurrentObjects(t));
    VersionsSplit(t);
    SumUnion(t, StandIns(t, CurrentObjects(t)), PreviousVersions(t));
  }

  /** The version ID that a read finds a stored version by. */
  function ReadBy(rk: RecordKey): Bytes {
    if rk.Pointer? then "null" else rk.versionId
  }

  predicate Counted(t: Table, key: Bytes, v: Bytes, rk: RecordKey) {
    (rk in StoredVersions(t) || rk in StoredMarkers(t)) && rk.key == key && ReadBy(rk) == v
  }

  /** What is counted is what reads find: one object for each key whose current
      version is no delete marker, and one version or delete marker for each version ID
      that a read of the key finds. */
  lemma CountsWhatReadsFind(t: Table, key: Bytes, v: Bytes)
    requires Consistent(t) && v != ""
    ensures Pointer(key) in CurrentObjects(t) <==> Lookup(t, key, "").Some? && !Lookup(t, key, "").value.isDeleteMarker
    ensures
      var found := Lookup(t, key, v);
      && (found.Some? && !found.value.isDeleteMarker <==>
            exists rk :: Counted(t, key, v, rk) && rk in StoredVersions(t) && Some(t[rk]) == found)
      && (found.Some? && found.value.isDeleteMarker <==>
            exists rk :: Counted(t, key, v, rk) && rk in StoredMarkers(t) && Some(t[rk]) == found)
    ensures forall r1, r2 :: Counted(t, key, v, r1) && Counted(t, key, v, r2) ==> r1 == r2
  {
    var found := Lookup(t, key, v);
    assert Pointer(key) in t ==> RecordOk(t, Pointer(key));
    if found.Some? {
      var rk := if Version(key, v) in t then Version(key, v) else Pointer(key);
      assert RecordOk(t, rk) && Primary(t, rk) && ReadBy(rk) == v && Some(t[rk]) == found;
    }
    forall rk | Counted(t, key, v, rk)
      ensures Some(t[rk]) == found && rk == if Version(key, v) in t then Version(key, v) else Pointer(key)
    {
      assert RecordOk(t, rk);
    }
  }

  /** Counts that are right for the records already passed. */
  ghost predicate Tally(t: Table, counts: UsageCounts, rest: set<RecordKey>) {
    && counts.previousBytes == 0
    && counts.objects == |CurrentObjects(t) - rest| && counts.currentBytes == Sum(t, CurrentObjects(t) - rest)
    && counts.versions == |StoredVersions(t) - rest| && counts.logicalBytes == Sum(t, StoredVersions(t) - rest)
    && counts.deleteMarkers == |StoredMarkers(t) - rest|
  }

  /** Visiting a record counts it in the sets it belongs to. */
  lemma Visit(t: Table, counted: set<RecordKey>, rest: set<RecordKey>, rk: RecordKey)
    requires counted <= t.Keys && rk in rest && rk in t
    ensures rk in counted ==>
              && |counted - (rest - {rk})| == |counted - rest| + 1
              && Sum(t, counted - (rest - {rk})) == Sum(t, counted - rest) + t[rk].size
    ensures rk !in counted ==> counted - (rest - {rk}) == counted - rest
  {
    if rk in counted {
      OneMore(counted, rest, rk);
      SumWith(t, counted - rest, rk);
    }
  }

  lemma OneMore(counted: set<RecordKey>, rest: set<RecordKey>, rk: RecordKey)
    requires rk in rest && rk in counted
    ensures counted - (rest - {rk}) == (counted - rest) + {rk}
    ensures |counted - (rest - {rk})| == |counted - rest| + 1
  {
    assert counted - (rest - {rk}) == (counted - rest) + {rk};
  }

  lemma Tallied(t: Table, counts: UsageCounts, rest: set<RecordKey>, rk: RecordKey, counts': UsageCounts)
    requires Tally(t, counts, rest) && rk in rest && rk in t && counts'.previousBytes == 0
    requires
      var current, stored, marker := rk in CurrentObjects(t), rk in StoredVersions(t), rk in StoredMarkers(t);
      && counts'.objects == counts.objects + (if current then 1 else 0)
      && counts'.currentBytes == counts.currentBytes + (if current then t[rk].size else 0)
      && counts'.versions == counts.versions + (if stored then 1 else 0)
      && counts'.logicalBytes == counts.logicalBytes + (if stored then t[rk].size else 0)
      && counts'.deleteMarkers == counts.deleteMarkers + (if marker then 1 else 0)
    ensures Tally(t, counts', rest - {rk})
  {
    Visit(t, CurrentObjects(t), rest, rk);
    Visit(t, StoredVersions(t), rest, rk);
    Visit(t, StoredMarkers(t), rest, rk);
  }

  lemma TallyBegins(t: Table)
    ensures Tally(t, UsageCounts(0, 0, 0, 0, 0, 0), t.Keys)
  {
    assert CurrentObjects(t) - t.Keys == {} && StoredVersions(t) - t.Keys == {} && StoredMarkers(t) - t.Keys == {};
  }

  lemma TallyEnds(t: Table, counts: UsageCounts, rest: set<RecordKey>)
    requires Tally(t, counts, rest) && rest == {}
    ensures counts.objects == |CurrentObjects(t)| && counts.currentBytes == Sum(t, CurrentObjects(t))
    ensures counts.versions == |StoredVersions(t)| && counts.logicalBytes == Sum(t, StoredVersions(t))
    ensures counts.deleteMarkers == |StoredMarkers(t)|
  {
    assert CurrentObjects(t) - rest == CurrentObjects(t);
    assert StoredVersions(t) - rest == StoredVersions(t) && StoredMarkers(t) - rest == StoredMarkers(t);
  }

  method BucketUsage(t: Table) returns (counts: UsageCounts)
    requires Consistent(t)
    ensures counts.objects == |CurrentObjects(t)| && counts.currentBytes == Sum(t, CurrentObjects(t))
    ensures counts.versions == |StoredVersions(t)| && counts.logicalBytes == Sum(t, StoredVersions(t))
    ensures counts.deleteMarkers == |StoredMarkers(t)|
    ensures counts.previousBytes == Sum(t, PreviousVersions(t))
  {
    counts := UsageCounts(0, 0, 0, 0, 0, 0);
    var rest := t.Keys;
    TallyBegins(t);
    while rest != {}
      invariant rest <= t.Keys && Tally(t, counts, rest)
      decreases rest
    {
      var rk :| rk in rest;
      var obj := t[rk];
      ghost var before, ahead := counts, rest;
      rest := rest - {rk};
      if rk.Pointer? && !obj.isDeleteMarker {
        counts := counts.(objects := counts.objects + 1, currentBytes := counts.currentBytes + obj.size);
      }
      if !(rk.Pointer? && obj.versionId != "") {
        if obj.isDeleteMarker {
          counts := counts.(deleteMarkers := counts.deleteMarkers + 1);
        } else {
          counts := counts.(versions := counts.versions + 1, logicalBytes := counts.logicalBytes + obj.size);
        }
      }
      Tallied(t, before, ahead, rk, counts);
    }
    TallyEnds(t, counts, rest);
    PreviousBytes(t);
    counts := counts.(previousBytes := counts.logicalBytes - counts.currentBytes);
  }
}
