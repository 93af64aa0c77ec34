/** How far sweeps of current versions get. A sweep acts on a bounded batch of due
    versions in key order, and a delete marker that is not the last version of its key
    is due and stays. */
module SweepProgress {
  import opened ByteOrder
  import opened Records
  import opened MetadataStores
  import opened Publication
  import opened CrashSafety
  import opened Locality
  import opened Expiration
  import R = RollUp
  import V = Versioning
  import VS = VersionSurvival
  import ER = EngineRuns
  import H = History

  datatype Rule = Rule(prefix: Bytes, now: int, cutoff: int)

  predicate Due(t: Table, rule: Rule, key: Bytes) {
    Pointer(key) in t && HasPrefix(key, rule.prefix) && rule.now - t[Pointer(key)].modified > rule.cutoff
  }

  /** A delete marker that other versions of its key keep from expiring. */
  ghost predicate Stuck(t: Table, key: Bytes) {
    && Pointer(key) in t && t[Pointer(key)].isDeleteMarker
    && exists info :: info in KeyVersions(t, key) && info.versionId != t[Pointer(key)].versionId
  }

  function DueBefore(t: Table, rule: Rule, key: Bytes): (keys: set<Bytes>)
    ensures forall k :: k in keys <==> Due(t, rule, k) && Lt(k, key)
  {
    set k | k in PointerKeys(t) && Due(t, rule, k) && Lt(k, key)
  }

  ghost function StuckBefore(t: Table, rule: Rule, key: Bytes): (keys: set<Bytes>)
    ensures forall k :: k in keys <==> Due(t, rule, k) && Lt(k, key) && Stuck(t, k)
  {
    set k | k in DueBefore(t, rule, key) && Stuck(t, k)
  }

  /** The keys a sweep takes into its batch. */
  predicate InBatch(t: Table, rule: Rule, key: Bytes) {
    Due(t, rule, key) && |DueBefore(t, rule, key)| < MAX_EXPIRY_BATCH
  }

  // ------------------------------------------------------------- sets of keys

  lemma SubsetSize(a: set<Bytes>, b: set<Bytes>)
    requires a <= b
    ensures |a| <= |b|
  {
    assert b == a + (b - a);
  }

  lemma {:induction false} AscendingSize(s: seq<Bytes>, keys: set<Bytes>)
    requires Ascending(s) && forall k :: k in keys <==> k in s
    ensures |keys| == |s|
    decreases |s|
  {
    if s == [] {
      assert keys == {};
    } else {
      var n := |s| - 1;
      assert s[n] in s && forall k :: k in s <==> k in s[..n] || k == s[n];
      LtIrreflexive(s[n]);
      AscendingSize(s[..n], keys - {s[n]});
    }
  }

  // ------------------------------------------------------------------ the batch

  /** What the scan collects is the batch. */
  lemma ScanIsBatch(t: Table, rule: Rule, due: seq<Expiring>, key: Bytes)
    requires |due| <= MAX_EXPIRY_BATCH && forall e :: e in due ==> Due(t, rule, e.key)
    requires forall i, j :: 0 <= i < j < |due| ==> Lt(due[i].key, due[j].key)
    requires forall k :: Due(t, rule, k) ==>
               (exists e :: e in due && e.key == k) || (|due| == MAX_EXPIRY_BATCH && Lt(due[|due| - 1].key, k))
    ensures InBatch(t, rule, key) <==> exists e :: e in due && e.key == key
  {
    var keys := seq(|due|, i requires 0 <= i < |due| => due[i].key);
    if e :| e in due && e.key == key {
      var i :| 0 <= i < |due| && due[i] == e;
      forall k
        ensures k in DueBefore(t, rule, key) <==> k in keys[..i]
      {
        KeysBefore(t, rule, due, keys, i, k);
      }
      AscendingSize(keys[..i], DueBefore(t, rule, key));
    } else if Due(t, rule, key) {
      var all := set k | k in keys;
      AscendingSize(keys, all);
      forall k | k in all
        ensures k in DueBefore(t, rule, key)
      {
        var i :| 0 <= i < |keys| && keys[i] == k;
        assert due[i] in due;
        if i < |keys| - 1 {
          LtTransitive(k, keys[|keys| - 1], key);
        }
      }
      SubsetSize(all, DueBefore(t, rule, key));
    }
  }

  lemma KeysBefore(t: Table, rule: Rule, due: seq<Expiring>, keys: seq<Bytes>, i: nat, k: Bytes)
    requires i < |due| == |keys| && forall j :: 0 <= j < |due| ==> keys[j] == due[j].key
    requires forall e :: e in due ==> Due(t, rule, e.key)
    requires forall a, b :: 0 <= a < b < |due| ==> Lt(due[a].key, due[b].key)
    requires forall x :: Due(t, rule, x) ==>
               (exists e :: e in due && e.key == x) || (|due| == MAX_EXPIRY_BATCH && Lt(due[|due| - 1].key, x))
    ensures k in DueBefore(t, rule, keys[i]) <==> k in keys[..i]
  {
    if k in keys[..i] {
      var j :| 0 <= j < i && keys[..i][j] == k;
      assert due[j] in due;
    }
    if Due(t, rule, k) && Lt(k, keys[i]) {
      if e :| e in due && e.key == k {
        var j :| 0 <= j < |due| && due[j] == e;
        LtAsymmetric(k, keys[i]);
        assert j < i;
        assert keys[..i][j] == k;
      } else {
        LtAsymmetric(k, keys[i]);
        if i < |due| - 1 {
          LtTransitive(keys[i], due[|due| - 1].key, k);
        }
      }
    }
  }

  // ------------------------------------------------------------------- one key

  /** An expiry of what the scan saw, with no failure, after the sweep began. */
  ghost predicate Expires(t: Table, rule: Rule, e: Event) {
    && e.crash.None? && e.request.ExpireCurrent? && e.request.faults == Faults(false, Done, false)
    && e.request.time >= rule.now && Due(t, rule, e.request.key)
    && e.request.versionId == t[Pointer(e.request.key)].versionId && e.request.modified == t[Pointer(e.request.key)].modified
  }

  lemma OtherKeyUntouched(w: World, e: Event, k: Bytes)
    requires Safe(w) && Fresh(w, e.request) && !e.request.SetVersioning? && k != e.request.key
    ensures Agree(w.table, After(w, e).table, k)
  {
    var txns := ER.Committed(w, e);
    ER.CommittedCases(w, e);
    V.TableFollowsCommits(w, Taken(w, e));
    if txns != [] {
      if V.MainTxn(w, e.request, txns[0]) {
        VS.MainHasKey(w, e.request, txns[0]);
      } else {
        assert RecordOk(w.table, Pointer(e.request.key));
      }
      H.OtherKeys(w.table, txns[0], k);
      if |txns| == 1 {
        V.ApplyOne(w.table, txns);
      } else {
        VS.MainHasKey(w, e.request, txns[1]);
        H.OtherKeys(Apply(w.table, txns[0]), txns[1], k);
        V.ApplyOne(Apply(w.table, txns[0]), txns[1..]);
      }
    }
  }

  /** A delete marker that is the last version of its key goes for good. */
  lemma LastMarkerGoes(w: World, key: Bytes, v: Bytes, time: int, uuid: Bytes, copyId: Bytes)
    requires Safe(w) && Pointer(key) in w.table && w.table[Pointer(key)].isDeleteMarker && w.table[Pointer(key)].versionId == v
    requires !Stuck(w.table, key)
    ensures v != "" && Pointer(key) !in ExecAll(w, DeleteObject(w, w.status, key, v, time, uuid, copyId, Faults(false, Done, false))).table
  {
    var t, txn := w.table, DeleteMeta(key, v);
    var steps := DeleteObject(w, w.status, key, v, time, uuid, copyId, Faults(false, Done, false));
    assert RecordOk(t, Pointer(key));
    var removed := StoredRecord(ExecAll(w, []).table, key, v);
    assert steps == [] + [Commit(txn)] + RemoveData(removed) == [Commit(txn)] + RemoveData(removed);
    V.MainCommits(txn, removed);
    V.TableFollowsCommits(w, steps);
    V.ApplyOne(t, [txn]);
    forall x | x in VersionIds(t, key) - {v}
      ensures false
    {
      assert RecordOk(t, Version(key, x)) && Primary(t, Version(key, x));
      KeyVersionsAreStored(t, key, t[Version(key, x)]);
    }
    DeleteVersionGet(t, key, v, Pointer(key));
  }

  /** What an expiry does to its key: nothing if the key is stuck, and otherwise the
      key is not due any more. */
  lemma ExpiresOne(w: World, rule: Rule, e: Event)
    requires Safe(w) && Fresh(w, e.request) && rule.cutoff >= 0 && Expires(w.table, rule, e)
    ensures if Stuck(w.table, e.request.key) then After(w, e).table == w.table else !Due(After(w, e).table, rule, e.request.key)
  {
    var r, t := e.request, w.table;
    assert RecordOk(t, Pointer(r.key));
    if Stuck(t, r.key) {
      assert !ExpiresCurrent(t, r.key, r.versionId, r.modified);
    } else if t[Pointer(r.key)].isDeleteMarker {
      LastMarkerGoes(w, r.key, r.versionId, r.time, r.uuid, r.copyId);
    } else {
      var t1, txn := VS.DeleteTables(w, w.status, r.key, r.time, r.uuid, r.copyId);
      match txn
      case PutMeta(info) => PutGet(t1, info, Pointer(r.key));
      case DeleteMeta(_, _) =>
    }
  }

  // ----------------------------------------------------------------- one sweep

  lemma StuckAgrees(t: Table, u: Table, rule: Rule, key: Bytes)
    requires Agree(t, u, key)
    ensures Stuck(t, key) <==> Stuck(u, key)
    ensures Due(t, rule, key) <==> Due(u, rule, key)
  {
    KeyVersionsAgree(t, u, key);
    assert Get(t, Pointer(key)) == Get(u, Pointer(key));
  }

  ghost predicate OfKey(events: seq<Event>, key: Bytes) {
    exists i :: 0 <= i < |events| && events[i].request.ExpireCurrent? && events[i].request.key == key
  }

  ghost predicate DistinctKeys(events: seq<Event>) {
    forall i, j :: 0 <= i < j < |events| && events[i].request.ExpireCurrent? && events[j].request.ExpireCurrent? ==>
      events[i].request.key != events[j].request.key
  }

  ghost predicate ExpiresAll(t: Table, rule: Rule, events: seq<Event>) {
    forall i :: 0 <= i < |events| ==> Expires(t, rule, events[i])
  }

  /** What expiring some keys one after the other has done. */
  ghost predicate Treated(t: Table, u: Table, rule: Rule, key: Bytes, acted: bool) {
    if acted && !Stuck(t, key) then !Due(u, rule, key) else Agree(t, u, key)
  }

  lemma {:induction false} ExpiresEach(w: World, rule: Rule, events: seq<Event>, key: Bytes)
    requires Safe(w) && RunOk(w, events) && rule.cutoff >= 0 && ExpiresAll(w.table, rule, events) && DistinctKeys(events)
    ensures Treated(w.table, Run(w, events).table, rule, key, OfKey(events, key))
    decreases |events|
  {
    if events != [] {
      var e, w1 := events[0], After(w, events[0]);
      assert Expires(w.table, rule, e);
      AfterSafe(w, e);
      ExpiresOne(w, rule, e);
      forall i | 0 <= i < |events| - 1
        ensures Expires(w1.table, rule, events[1..][i])
      {
        StillExpires(w, rule, e, events[i + 1]);
      }
      ExpiresEach(w1, rule, events[1..], key);
      OfKeySplits(events, key);
      if key == e.request.key {
        assert !OfKey(events[1..], key);
        StuckAgrees(w1.table, Run(w1, events[1..]).table, rule, key);
      } else {
        OtherKeyUntouched(w, e, key);
        StuckAgrees(w.table, w1.table, rule, key);
      }
    }
  }

  lemma OfKeySplits(events: seq<Event>, key: Bytes)
    requires events != []
    ensures OfKey(events, key) <==> (events[0].request.ExpireCurrent? && events[0].request.key == key) || OfKey(events[1..], key)
    ensures DistinctKeys(events) && events[0].request.ExpireCurrent? && events[0].request.key == key ==> !OfKey(events[1..], key)
  {
    if OfKey(events[1..], key) {
      var i :| 0 <= i < |events[1..]| && events[1..][i].request.ExpireCurrent? && events[1..][i].request.key == key;
      assert events[i + 1].request.key == key;
    }
    if i :| 0 < i < |events| && events[i].request.ExpireCurrent? && events[i].request.key == key {
      assert events[1..][i - 1].request.key == key;
    }
  }

  lemma StillExpires(w: World, rule: Rule, e: Event, later: Event)
    requires Safe(w) && Fresh(w, e.request) && Expires(w.table, rule, e) && Expires(w.table, rule, later)
    requires later.request.key != e.request.key
    ensures Expires(After(w, e).table, rule, later)
  {
    OtherKeyUntouched(w, e, later.request.key);
    assert Get(w.table, Pointer(later.request.key)) == Get(After(w, e).table, Pointer(later.request.key));
  }

  /** A sweep expires the keys of its batch, each as scanned. */
  ghost predicate IsSweep(t: Table, rule: Rule, events: seq<Event>) {
    && ExpiresAll(t, rule, events) && DistinctKeys(events)
    && forall key :: OfKey(events, key) <==> InBatch(t, rule, key)
  }

  /** What a sweep does: keys of the batch that are not stuck are not due any more,
      every other key is untouched. */
  ghost predicate Swept(t: Table, u: Table, rule: Rule) {
    forall key :: Treated(t, u, rule, key, InBatch(t, rule, key))
  }

  lemma SweepDoes(w: World, rule: Rule, events: seq<Event>)
    requires Safe(w) && RunOk(w, events) && rule.cutoff >= 0 && IsSweep(w.table, rule, events)
    ensures Swept(w.table, Run(w, events).table, rule)
  {
    forall key
      ensures Treated(w.table, Run(w, events).table, rule, key, InBatch(w.table, rule, key))
    {
      ExpiresEach(w, rule, events, key);
    }
  }

  // ---------------------------------------------------------- sweep after sweep

  /** Tables before and after each of a sequence of sweeps. */
  ghost predicate Sweeps(tables: seq<Table>, rule: Rule) {
    tables != [] && forall i :: 0 <= i < |tables| - 1 ==> Swept(tables[i], tables[i + 1], rule)
  }

  lemma TailSweeps(tables: seq<Table>, rule: Rule)
    requires Sweeps(tables, rule) && |tables| > 1
    ensures Swept(tables[0], tables[1], rule) && Sweeps(tables[1..], rule)
    ensures tables[1..][0] == tables[1] && tables[1..][|tables| - 2] == tables[|tables| - 1]
  {
    forall i | 0 <= i < |tables| - 2
      ensures Swept(tables[1..][i], tables[1..][i + 1], rule)
    {
      assert Swept(tables[i + 1], tables[i + 2], rule);
    }
  }

  lemma DoneFor(t: Table, u: Table, rule: Rule, key: Bytes)
    requires Swept(t, u, rule)
    ensures Due(u, rule, key) ==> Due(t, rule, key) && Agree(t, u, key) && (Stuck(t, key) <==> Stuck(u, key))
    ensures Due(t, rule, key) && Stuck(t, key) ==> Due(u, rule, key) && Stuck(u, key)
    ensures Due(t, rule, key) && !Stuck(t, key) ==> (Due(u, rule, key) <==> !InBatch(t, rule, key))
  {
    assert Treated(t, u, rule, key, InBatch(t, rule, key));
    if Agree(t, u, key) {
      StuckAgrees(t, u, rule, key);
    }
  }

  lemma StuckStay(t: Table, u: Table, rule: Rule, key: Bytes)
    requires Swept(t, u, rule)
    ensures StuckBefore(u, rule, key) == StuckBefore(t, rule, key)
    ensures DueBefore(u, rule, key) <= DueBefore(t, rule, key)
  {
    forall k
      ensures k in StuckBefore(u, rule, key) <==> k in StuckBefore(t, rule, key)
      ensures k in DueBefore(u, rule, key) ==> k in DueBefore(t, rule, key)
    {
      DoneFor(t, u, rule, k);
    }
  }

  /** Of the due keys before a key, the first ones make up the batch. */
  lemma FirstAreInBatch(t: Table, rule: Rule, key: Bytes) returns (first: set<Bytes>)
    requires |DueBefore(t, rule, key)| >= MAX_EXPIRY_BATCH
    ensures |first| == MAX_EXPIRY_BATCH && first <= DueBefore(t, rule, key)
    ensures forall k :: k in first ==> InBatch(t, rule, k)
  {
    var all := R.Ordered(DueBefore(t, rule, key));
    AscendingSize(all, DueBefore(t, rule, key));
    var front := all[..MAX_EXPIRY_BATCH];
    first := set k | k in front;
    AscendingSize(front, first);
    forall k | k in first
      ensures k in DueBefore(t, rule, key) && InBatch(t, rule, k)
    {
      var i :| 0 <= i < MAX_EXPIRY_BATCH && front[i] == k;
      assert all[i] in all;
      RankInOrder(t, rule, key, all, i);
    }
  }

  lemma RankInOrder(t: Table, rule: Rule, key: Bytes, all: seq<Bytes>, i: nat)
    requires Ascending(all) && i < |all| && forall k :: k in all <==> k in DueBefore(t, rule, key)
    ensures |DueBefore(t, rule, all[i])| == i
  {
    assert all[i] in all;
    forall k
      ensures k in DueBefore(t, rule, all[i]) <==> k in all[..i]
    {
      if k in all[..i] {
        var j :| 0 <= j < i && all[..i][j] == k;
        assert all[j] in all;
      }
      if k in DueBefore(t, rule, all[i]) {
        LtTransitive(k, all[i], key);
        var j :| 0 <= j < |all| && all[j] == k;
        LtAsymmetric(k, all[i]);
        assert j < i && all[..i][j] == k;
      }
    }
    AscendingSize(all[..i], DueBefore(t, rule, all[i]));
  }

  /** While fewer than a batch of keys before it are stuck, a sweep reaches the key or
      one before it. */
  lemma SweepAdvances(t: Table, u: Table, rule: Rule, key: Bytes)
    requires Swept(t, u, rule) && Due(t, rule, key) && !Stuck(t, key)
    requires |StuckBefore(t, rule, key)| < MAX_EXPIRY_BATCH
    ensures !Due(u, rule, key) || |DueBefore(u, rule, key)| < |DueBefore(t, rule, key)|
  {
    DoneFor(t, u, rule, key);
    if !InBatch(t, rule, key) {
      var first := FirstAreInBatch(t, rule, key);
      if first <= StuckBefore(t, rule, key) {
        SubsetSize(first, StuckBefore(t, rule, key));
        assert false;
      }
      var k :| k in first && k !in StuckBefore(t, rule, key);
      DoneFor(t, u, rule, k);
      StuckStay(t, u, rule, key);
      assert k in DueBefore(t, rule, key) && k !in DueBefore(u, rule, key);
      SubsetSize(DueBefore(u, rule, key), DueBefore(t, rule, key) - {k});
    }
  }

  /** One sweep further: the key is not due any more, or fewer are due before it. */
  lemma OneSweep(t: Table, u: Table, rule: Rule, key: Bytes)
    requires Swept(t, u, rule) && Due(t, rule, key) && !Stuck(t, key)
    requires |StuckBefore(t, rule, key)| < MAX_EXPIRY_BATCH
    ensures Due(u, rule, key) ==>
              && !Stuck(u, key) && |DueBefore(u, rule, key)| < |DueBefore(t, rule, key)|
              && |StuckBefore(u, rule, key)| < MAX_EXPIRY_BATCH
  {
    SweepAdvances(t, u, rule, key);
    DoneFor(t, u, rule, key);
    StuckStay(t, u, rule, key);
  }

  lemma {:induction false} Reached(tables: seq<Table>, rule: Rule, key: Bytes)
    requires Sweeps(tables, rule) && Due(tables[0], rule, key) && !Stuck(tables[0], key)
    requires |StuckBefore(tables[0], rule, key)| < MAX_EXPIRY_BATCH
    requires |tables| > |DueBefore(tables[0], rule, key)| + 1
    ensures !Due(tables[|tables| - 1], rule, key)
    decreases |tables|
  {
    TailSweeps(tables, rule);
    OneSweep(tables[0], tables[1], rule, key);
    if Due(tables[1], rule, key) {
      Reached(tables[1..], rule, key);
    } else {
      StaysNotDue(tables[1..], rule, key);
    }
  }

  lemma {:induction false} StaysNotDue(tables: seq<Table>, rule: Rule, key: Bytes)
    requires Sweeps(tables, rule) && !Due(tables[0], rule, key)
    ensures !Due(tables[|tables| - 1], rule, key)
    decreases |tables|
  {
    if |tables| > 1 {
      TailSweeps(tables, rule);
      DoneFor(tables[0], tables[1], rule, key);
      StaysNotDue(tables[1..], rule, key);
    }
  }

  lemma {:induction false} Starved(tables: seq<Table>, rule: Rule, key: Bytes)
    requires Sweeps(tables, rule) && Due(tables[0], rule, key) && !Stuck(tables[0], key)
    requires |StuckBefore(tables[0], rule, key)| >= MAX_EXPIRY_BATCH
    ensures Due(tables[|tables| - 1], rule, key)
    decreases |tables|
  {
    if |tables| > 1 {
      var t, u := tables[0], tables[1];
      TailSweeps(tables, rule);
      SubsetSize(StuckBefore(t, rule, key), DueBefore(t, rule, key));
      DoneFor(t, u, rule, key);
      StuckStay(t, u, rule, key);
      Starved(tables[1..], rule, key);
    }
  }

  /** With nothing else going on, a long enough sequence of sweeps of what is due now
      expires a version that is due if and only if it is not stuck and fewer than a
      batch of keys before it are. */
  lemma SweepsReachIff(tables: seq<Table>, rule: Rule, key: Bytes)
    requires Sweeps(tables, rule) && Due(tables[0], rule, key) && |tables| > |DueBefore(tables[0], rule, key)| + 1
    ensures !Due(tables[|tables| - 1], rule, key) <==>
            !Stuck(tables[0], key) && |StuckBefore(tables[0], rule, key)| < MAX_EXPIRY_BATCH
  {
    if Stuck(tables[0], key) {
      StuckForGood(tables, rule, key);
    } else if |StuckBefore(tables[0], rule, key)| < MAX_EXPIRY_BATCH {
      Reached(tables, rule, key);
    } else {
      Starved(tables, rule, key);
    }
  }

  lemma {:induction false} StuckForGood(tables: seq<Table>, rule: Rule, key: Bytes)
    requires Sweeps(tables, rule) && Due(tables[0], rule, key) && Stuck(tables[0], key)
    ensures Due(tables[|tables| - 1], rule, key)
    decreases |tables|
  {
    if |tables| > 1 {
      TailSweeps(tables, rule);
      DoneFor(tables[0], tables[1], rule, key);
      StuckForGood(tables[1..], rule, key);
    }
  }
}
