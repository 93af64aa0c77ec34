/** One bucket's reconciler: seeding the journal and one pass over it, page by
    page, while acknowledged entries vanish under the cursor. */
module Reconcile {
  import opened ByteOrder
  import opened Records
  import opened MetadataStores
  import opened Outbox

  datatype Pending = Pending(key: Bytes, revision: nat)

  class Reconciler {
    const meta: MetadataStore
    var replica: map<Bytes, Digest>
    /** The keys sent, in the order of their sending. */
    ghost var sent: seq<Bytes>

    constructor (meta: MetadataStore, replica: map<Bytes, Digest>)
      ensures this.meta == meta && this.replica == replica && sent == []
    {
      this.meta, this.replica, sent := meta, replica, [];
    }

    /** Walks every record and marks the keys of those that are latest. A versioned
        key is met twice, at its pointer and at its version record. */
    method SeedReplication()
      requires Consistent(meta.objects) && meta.replication
      modifies meta`journal, meta`sequence
      ensures Seeded(meta.objects, old(meta.journal), old(meta.sequence), meta.journal, meta.sequence)
      ensures forall k :: Lookup(meta.objects, k, "").Some? ==> k in meta.journal && meta.journal[k] > old(meta.sequence)
    {
      var rest := meta.objects.Keys;
      while rest != {}
        invariant rest <= meta.objects.Keys && old(meta.sequence) <= meta.sequence
        invariant old(meta.journal).Keys <= meta.journal.Keys <= old(meta.journal).Keys + PointerKeys(meta.objects)
        invariant forall k :: k in PointerKeys(meta.objects) ==>
                    Pointer(k) in rest || (k in meta.journal && old(meta.sequence) < meta.journal[k] <= meta.sequence)
        invariant forall k :: k in meta.journal && (k !in old(meta.journal) || meta.journal[k] != old(meta.journal)[k]) ==>
                    k in PointerKeys(meta.objects) && old(meta.sequence) < meta.journal[k] <= meta.sequence
        decreases |rest|
      {
        var rk :| rk in rest;
        var info := meta.objects[rk];
        assert RecordOk(meta.objects, rk);
        assert rk.Version? ==> RecordOk(meta.objects, Pointer(rk.key));
        if info.isLatest {
          meta.MarkReplication(info.key);
        }
        rest := rest - {rk};
      }
    }

    /** Reads the next page: at most a batch of entries after the given key. */
    method ReadPage(after: Option<Bytes>) returns (batch: seq<Pending>)
      ensures |batch| <= 100 && Ascending(KeysOf(batch))
      ensures forall i :: 0 <= i < |batch| ==>
                batch[i].key in meta.journal && batch[i].revision == meta.journal[batch[i].key] && Follows(after, batch[i].key)
      ensures forall k :: k in meta.journal && Follows(after, k) ==>
                k in KeysOf(batch) || (|batch| == 100 && Lt(batch[|batch| - 1].key, k))
    {
      batch := [];
      var rest := meta.journal.Keys;
      if after.Some? {
        SeekAfter(rest, after.value);
        rest := set k | k in meta.journal.Keys && Le(after.value, k);
        if rest != {} && First(rest) == after.value {
          rest := rest - {after.value};
        }
      }
      assert forall k :: k in rest <==> k in meta.journal && Follows(after, k);
      while rest != {} && |batch| < BATCH_SIZE
        invariant rest <= meta.journal.Keys && |batch| <= BATCH_SIZE && Ascending(KeysOf(batch))
        invariant forall k :: k in rest ==> Follows(after, k)
        invariant forall i, k :: 0 <= i < |batch| && k in rest ==> Lt(batch[i].key, k)
        invariant forall i :: 0 <= i < |batch| ==>
                    batch[i].key in meta.journal && batch[i].revision == meta.journal[batch[i].key] && Follows(after, batch[i].key)
        invariant forall k :: k in meta.journal && Follows(after, k) ==> k in rest || k in KeysOf(batch)
        decreases |rest|
      {
        var k := First(rest);
        KeysOfSnoc(batch, Pending(k, meta.journal[k]));
        batch := batch + [Pending(k, meta.journal[k])];
        rest := rest - {k};
      }
    }

    /** Sends the object a read of the key finds, or a delete if there is none or it is
        hidden by a delete marker; the send succeeds. */
    method SendPending(item: Pending)
      modifies this`replica, this`sent
      ensures replica == Receive(old(replica), item.key, Visible(meta.objects, item.key)) && sent == old(sent) + [item.key]
      ensures
        var found := Lookup(meta.objects, item.key, "");
        replica == if found.Some? && !found.value.isDeleteMarker then old(replica)[item.key := found.value.etag]
                   else old(replica) - {item.key}
    {
      var data := Get(meta.objects, Pointer(item.key));
      if data.Some? && !data.value.isDeleteMarker {
        replica := replica[item.key := data.value.etag];
      } else {
        replica := replica - {item.key};
      }
      sent := sent + [item.key];
    }

    /** Acknowledges the revision that was read: an entry marked since stays. */
    method AcknowledgePending(item: Pending)
      modifies meta`journal
      ensures meta.journal == if item.key in old(meta.journal) && old(meta.journal)[item.key] != item.revision
                              then old(meta.journal) else old(meta.journal) - {item.key}
    {
      if item.key in meta.journal && meta.journal[item.key] == item.revision {
        meta.journal := meta.journal - {item.key};
      }
    }

    /** Delivers a page by workers whose deliveries overlap: sends and
        acknowledgements come in any order, each item's send before its
        acknowledgement. */
    method DeliverPage(batch: seq<Pending>) returns (ghost order: seq<Bytes>)
      requires Ascending(KeysOf(batch))
      requires forall i :: 0 <= i < |batch| ==> batch[i].key in meta.journal && meta.journal[batch[i].key] == batch[i].revision
      modifies meta`journal, this`replica, this`sent
      ensures Pends(old(meta.journal), meta.journal, KeysOf(batch), {})
      ensures sent == old(sent) + order && multiset(order) == multiset(KeysOf(batch))
      ensures Mirrors(meta.objects, old(replica), replica, KeysOf(batch))
    {
      var waiting: set<Pending>, unacknowledged: set<Pending> := set item | item in batch, {};
      ghost var page := PageState(meta.objects, batch, meta.journal, replica);
      order := [];
      assert sent == old(sent) + order;
      PageBegins(page, waiting);
      while waiting != {} || unacknowledged != {}
        invariant Underway(page, waiting, unacknowledged, order, meta.journal, replica)
        invariant sent == old(sent) + order
        decreases |waiting|, |unacknowledged|
      {
        var item :| item in waiting || item in unacknowledged;
        if item in waiting {
          SendOne(item, page, waiting, unacknowledged, old(sent), order);
          waiting, unacknowledged, order := waiting - {item}, unacknowledged + {item}, order + [item.key];
        } else {
          AcknowledgeOne(item, page, waiting, unacknowledged, order);
          unacknowledged := unacknowledged - {item};
        }
      }
      PageEnds(page, waiting, unacknowledged, order, meta.journal, replica);
    }

    /** An item's send, as a step of delivering its page. */
    method SendOne(item: Pending, ghost page: PageState, ghost waiting: set<Pending>, ghost unacknowledged: set<Pending>,
                   ghost before: seq<Bytes>, ghost order: seq<Bytes>)
      requires Underway(page, waiting, unacknowledged, order, meta.journal, replica)
      requires item in waiting && page.table == meta.objects && sent == before + order
      modifies this`replica, this`sent
      ensures Underway(page, waiting - {item}, unacknowledged + {item}, order + [item.key], meta.journal, replica)
      ensures sent == before + (order + [item.key])
    {
      Concat(before, order, [item.key]);
      Sends(page, waiting, unacknowledged, order, meta.journal, replica, item);
      SendPending(item);
    }

    method AcknowledgeOne(item: Pending, ghost page: PageState, ghost waiting: set<Pending>, ghost unacknowledged: set<Pending>,
                          ghost order: seq<Bytes>)
      requires Underway(page, waiting, unacknowledged, order, meta.journal, replica)
      requires item in unacknowledged
      modifies meta`journal
      ensures Underway(page, waiting, unacknowledged - {item}, order, meta.journal, replica)
    {
      Acknowledges(page, waiting, unacknowledged, order, meta.journal, replica, item);
      AcknowledgePending(item);
    }

    /** One pass with no concurrent writes and every send succeeding: each pending
        key is sent exactly once, page before page, the pass ends, the journal is
        empty, and of the keys that were pending the replica holds exactly those a read
        finds an object for, with that object's digest. */
    method ReconcilePending() returns (ghost keys: seq<Bytes>, ghost order: seq<Bytes>)
      modifies meta`journal, this`replica, this`sent
      ensures meta.journal == map[]
      ensures Ascending(keys) && forall k :: k in keys <==> k in old(meta.journal)
      ensures sent == old(sent) + order && PageByPage(order, keys)
      ensures forall k :: k in old(meta.journal) ==>
                var found := Lookup(meta.objects, k, "");
                && (k in replica <==> found.Some? && !found.value.isDeleteMarker)
                && (k in replica ==> replica[k] == found.value.etag)
      ensures forall k :: k !in old(meta.journal) ==> Held(replica, k) == Held(old(replica), k)
    {
      keys, order := [], [];
      var after: Option<Bytes> := None;
      ghost var pages := 0;
      while true
        invariant sent == old(sent) + order
        invariant PageByPage(order, keys)
        invariant 0 <= pages && (|keys| == BATCH_SIZE * pages || meta.journal == map[])
        invariant Progress(meta.objects, old(meta.journal), old(replica), meta.journal, replica, keys, after)
        decreases |meta.journal|
      {
        var batch := ReadPage(after);
        if |batch| == 0 {
          assert forall k :: k !in meta.journal;
          break;
        }
        ghost var before, page := meta.journal, KeysOf(batch);
        ghost var replicaBefore := replica;
        ghost var sentNow := DeliverPage(batch);
        Concat(old(sent), order, sentNow);
        PageProgress(meta.objects, old(meta.journal), old(replica), before, replicaBefore, meta.journal, replica, keys, batch, after);
        PageShrinks(before, meta.journal, batch, after);
        NextPage(order, keys, sentNow, page, pages);
        pages := pages + 1;
        keys, order := keys + page, order + sentNow;
        after := Some(batch[|batch| - 1].key);
      }
      assert forall k {:trigger Lookup(meta.objects, k, "")} :: Held(replica, k) == if k in keys then Visible(meta.objects, k) else Held(old(replica), k);
    }
  }

  // ------------------------------------------------------------- a page under way

  function Keys(items: set<Pending>): set<Bytes> {
    set item | item in items :: item.key
  }

  predicate NoneTwice(s: seq<Bytes>) {
    forall i, j :: 0 <= i < j < |s| ==> s[i] != s[j]
  }

  /** A page, and the journal and replica it found. */
  datatype PageState = PageState(table: Table, batch: seq<Pending>, journal: map<Bytes, nat>, replica: map<Bytes, Digest>)

  ghost predicate PageOk(p: PageState) {
    && Ascending(KeysOf(p.batch))
    && forall i :: 0 <= i < |p.batch| ==> p.batch[i].key in p.journal && p.journal[p.batch[i].key] == p.batch[i].revision
  }

  /** Of the page's keys those left are pending as before, and so is every other. */
  ghost predicate Pends(journal0: map<Bytes, nat>, journal: map<Bytes, nat>, page: seq<Bytes>, left: set<Bytes>) {
    && (forall k :: k in journal <==> k in journal0 && (k in page ==> k in left))
    && (forall k :: k in journal ==> journal[k] == journal0[k])
  }

  /** The keys sent are on the replica as they are here; the others as before. */
  ghost predicate Mirrors(t: Table, replica0: map<Bytes, Digest>, replica: map<Bytes, Digest>, sent: seq<Bytes>) {
    forall k :: Held(replica, k) == if k in sent then Visible(t, k) else Held(replica0, k)
  }

  /** Every item of the page waits, or has been sent once and is not acknowledged yet,
      or has been sent once and acknowledged. */
  ghost predicate Sorted(batch: seq<Pending>, waiting: set<Pending>, unacknowledged: set<Pending>, order: seq<Bytes>) {
    && NoneTwice(order)
    && (forall item :: item in waiting || item in unacknowledged ==> item in batch)
    && Keys(waiting) !! Keys(unacknowledged)
    && (forall k :: k in order <==> k in KeysOf(batch) && k !in Keys(waiting))
  }

  ghost predicate Underway(p: PageState, waiting: set<Pending>, unacknowledged: set<Pending>, order: seq<Bytes>,
                           journal: map<Bytes, nat>, replica: map<Bytes, Digest>)
  {
    && PageOk(p) && Sorted(p.batch, waiting, unacknowledged, order)
    && Pends(p.journal, journal, KeysOf(p.batch), Keys(waiting) + Keys(unacknowledged))
    && Mirrors(p.table, p.replica, replica, order)
  }

  lemma MirrorsNext(t: Table, replica0: map<Bytes, Digest>, replica: map<Bytes, Digest>, sent: seq<Bytes>, key: Bytes)
    requires Mirrors(t, replica0, replica, sent)
    ensures Mirrors(t, replica0, Receive(replica, key, Visible(t, key)), sent + [key])
  {
    var after := Receive(replica, key, Visible(t, key));
    forall k
      ensures Held(after, k) == if k in sent + [key] then Visible(t, k) else Held(replica0, k)
    {
      assert Held(replica, k) == if k in sent then Visible(t, k) else Held(replica0, k);
    }
  }

  lemma PageBegins(p: PageState, waiting: set<Pending>)
    requires PageOk(p) && waiting == set item | item in p.batch
    ensures Underway(p, waiting, {}, [], p.journal, p.replica)
  {
    forall k | k in KeysOf(p.batch)
      ensures k in Keys(waiting)
    {
      var i :| 0 <= i < |p.batch| && KeysOf(p.batch)[i] == k;
      assert p.batch[i] in waiting;
    }
  }

  lemma ItemOf(batch: seq<Pending>, item: Pending)
    requires item in batch
    ensures item.key in KeysOf(batch)
  {
    var i :| 0 <= i < |batch| && batch[i] == item;
    assert KeysOf(batch)[i] == item.key;
  }

  lemma OneItemPerKey(batch: seq<Pending>, a: Pending, b: Pending)
    requires Ascending(KeysOf(batch)) && a in batch && b in batch && a.key == b.key
    ensures a == b
  {
    var i :| 0 <= i < |batch| && batch[i] == a;
    var j :| 0 <= j < |batch| && batch[j] == b;
    LtIrreflexive(KeysOf(batch)[i]);
    assert KeysOf(batch)[i] == KeysOf(batch)[j];
  }

  /** Taking an item out takes its key out. */
  lemma KeysWithout(batch: seq<Pending>, items: set<Pending>, item: Pending)
    requires Ascending(KeysOf(batch)) && item in items && forall x :: x in items ==> x in batch
    ensures Keys(items - {item}) == Keys(items) - {item.key}
  {
    forall x | x in items && x.key == item.key
      ensures x == item
    {
      OneItemPerKey(batch, x, item);
    }
  }

  lemma Sends(p: PageState, waiting: set<Pending>, unacknowledged: set<Pending>, order: seq<Bytes>,
              journal: map<Bytes, nat>, replica: map<Bytes, Digest>, item: Pending)
    requires Underway(p, waiting, unacknowledged, order, journal, replica) && item in waiting
    ensures Underway(p, waiting - {item}, unacknowledged + {item}, order + [item.key], journal,
                     Receive(replica, item.key, Visible(p.table, item.key)))
  {
    ItemOf(p.batch, item);
    KeysWithout(p.batch, waiting, item);
    MirrorsNext(p.table, p.replica, replica, order, item.key);
    assert item.key in Keys(waiting);
    assert Keys(unacknowledged + {item}) == Keys(unacknowledged) + {item.key};
    assert Keys(waiting - {item}) + Keys(unacknowledged + {item}) == Keys(waiting) + Keys(unacknowledged);
  }

  lemma Acknowledges(p: PageState, waiting: set<Pending>, unacknowledged: set<Pending>, order: seq<Bytes>,
                     journal: map<Bytes, nat>, replica: map<Bytes, Digest>, item: Pending)
    requires Underway(p, waiting, unacknowledged, order, journal, replica) && item in unacknowledged
    ensures item.key in journal && journal[item.key] == item.revision
    ensures Underway(p, waiting, unacknowledged - {item}, order, journal - {item.key}, replica)
  {
    ItemOf(p.batch, item);
    KeysWithout(p.batch, unacknowledged, item);
    assert item.key in Keys(unacknowledged) && item.key !in Keys(waiting);
  }

  lemma PageEnds(p: PageState, waiting: set<Pending>, unacknowledged: set<Pending>, order: seq<Bytes>,
                 journal: map<Bytes, nat>, replica: map<Bytes, Digest>)
    requires waiting == {} && unacknowledged == {} && Underway(p, waiting, unacknowledged, order, journal, replica)
    ensures Pends(p.journal, journal, KeysOf(p.batch), {}) && Mirrors(p.table, p.replica, replica, KeysOf(p.batch))
    ensures multiset(order) == multiset(KeysOf(p.batch))
  {
    assert Keys(waiting) == {} && Keys(unacknowledged) == {};
    AscendingNoneTwice(KeysOf(p.batch));
    SameMultiset(order, KeysOf(p.batch));
    forall k
      ensures Held(replica, k) == if k in KeysOf(p.batch) then Visible(p.table, k) else Held(p.replica, k)
    {
      assert Held(replica, k) == if k in order then Visible(p.table, k) else Held(p.replica, k);
    }
  }

  lemma AscendingNoneTwice(s: seq<Bytes>)
    requires Ascending(s)
    ensures NoneTwice(s)
  {
    forall i, j | 0 <= i < j < |s|
      ensures s[i] != s[j]
    {
      LtIrreflexive(s[i]);
    }
  }

  lemma {:induction false} CountOnce(s: seq<Bytes>, k: Bytes)
    requires NoneTwice(s)
    ensures multiset(s)[k] == if k in s then 1 else 0
    decreases |s|
  {
    if s != [] {
      var n := |s| - 1;
      assert s == s[..n] + [s[n]];
      CountOnce(s[..n], k);
    }
  }

  lemma SameMultiset(a: seq<Bytes>, b: seq<Bytes>)
    requires NoneTwice(a) && NoneTwice(b) && forall k :: k in a <==> k in b
    ensures multiset(a) == multiset(b)
  {
    forall k
      ensures multiset(a)[k] == multiset(b)[k]
    {
      CountOnce(a, k);
      CountOnce(b, k);
    }
  }

  // -------------------------------------------------------------------- the pass

  /** The same keys sent, page before page: after each page exactly its keys and
      those before it have been. */
  ghost predicate PageByPage(order: seq<Bytes>, keys: seq<Bytes>) {
    && |order| == |keys| && multiset(order) == multiset(keys)
    && forall n :: 0 <= n <= |keys| && n % BATCH_SIZE == 0 ==> multiset(order[..n]) == multiset(keys[..n])
  }

  lemma NextPage(order: seq<Bytes>, keys: seq<Bytes>, sent: seq<Bytes>, page: seq<Bytes>, pages: nat)
    requires PageByPage(order, keys) && multiset(sent) == multiset(page) && |page| <= BATCH_SIZE
    requires |keys| == BATCH_SIZE * pages
    ensures PageByPage(order + sent, keys + page)
  {
    assert |sent| == |multiset(sent)| && |page| == |multiset(page)|;
    var o, k := order + sent, keys + page;
    forall n | 0 <= n <= |k| && n % BATCH_SIZE == 0
      ensures multiset(o[..n]) == multiset(k[..n])
    {
      if n <= |keys| {
        assert o[..n] == order[..n] && k[..n] == keys[..n];
      } else {
        assert o[..n] == o && k[..n] == k;
      }
    }
  }

  function Held(replica: map<Bytes, Digest>, key: Bytes): Option<Digest> {
    if key in replica then Some(replica[key]) else None
  }

  /** Where a pass stands: `keys` are sent and acknowledged, the rest of the
      journal lies ahead of the cursor. */
  ghost predicate Progress(t: Table, journal0: map<Bytes, nat>, replica0: map<Bytes, Digest>,
                           journal: map<Bytes, nat>, replica: map<Bytes, Digest>, keys: seq<Bytes>, after: Option<Bytes>)
  {
    && Ascending(keys)
    && (forall k :: k in journal0 <==> k in keys || k in journal)
    && (forall k :: k in keys ==> !Follows(after, k))
    && (forall k :: k in journal ==> Follows(after, k))
    && Mirrors(t, replica0, replica, keys)
  }

  lemma PageProgress(t: Table, journal0: map<Bytes, nat>, replica0: map<Bytes, Digest>,
                     journal: map<Bytes, nat>, replica: map<Bytes, Digest>,
                     journal': map<Bytes, nat>, replica': map<Bytes, Digest>,
                     keys: seq<Bytes>, batch: seq<Pending>, after: Option<Bytes>)
    requires Progress(t, journal0, replica0, journal, replica, keys, after)
    requires batch != [] && Ascending(KeysOf(batch))
    requires forall i :: 0 <= i < |batch| ==> batch[i].key in journal
    requires forall k :: k in journal && Follows(after, k) ==>
               k in KeysOf(batch) || (|batch| == BATCH_SIZE && Lt(batch[|batch| - 1].key, k))
    requires Pends(journal, journal', KeysOf(batch), {}) && Mirrors(t, replica, replica', KeysOf(batch))
    ensures Progress(t, journal0, replica0, journal', replica', keys + KeysOf(batch), Some(batch[|batch| - 1].key))
  {
    var page := KeysOf(batch);
    assert page[|page| - 1] in page;
    PageDone(keys, page, after);
    MirrorsBoth(t, replica0, replica, replica', keys, page);
    StillAhead(journal0, journal, journal', keys, page, batch, after);
  }

  lemma StillAhead(journal0: map<Bytes, nat>, journal: map<Bytes, nat>, journal': map<Bytes, nat>,
                   keys: seq<Bytes>, page: seq<Bytes>, batch: seq<Pending>, after: Option<Bytes>)
    requires batch != [] && page == KeysOf(batch) && Pends(journal, journal', page, {})
    requires forall k :: k in journal0 <==> k in keys || k in journal
    requires forall i :: 0 <= i < |batch| ==> batch[i].key in journal
    requires forall k :: k in journal ==> Follows(after, k)
    requires forall k :: k in journal && Follows(after, k) ==>
               k in page || (|batch| == BATCH_SIZE && Lt(batch[|batch| - 1].key, k))
    ensures forall k :: k in keys + page <==> k in keys || k in page
    ensures forall k :: k in journal0 <==> k in keys + page || k in journal'
    ensures forall k :: k in journal' ==> Follows(Some(page[|page| - 1]), k)
  {
  }

  /** A page takes its keys out of the journal; a short one leaves nothing. */
  lemma PageShrinks(journal: map<Bytes, nat>, journal': map<Bytes, nat>, batch: seq<Pending>, after: Option<Bytes>)
    requires batch != [] && batch[|batch| - 1].key in journal
    requires forall k :: k in journal ==> Follows(after, k)
    requires forall k :: k in journal && Follows(after, k) ==>
               k in KeysOf(batch) || (|batch| == BATCH_SIZE && Lt(batch[|batch| - 1].key, k))
    requires Pends(journal, journal', KeysOf(batch), {})
    ensures |journal'| < |journal|
    ensures |batch| < BATCH_SIZE ==> journal' == map[]
  {
    ItemOf(batch, batch[|batch| - 1]);
    SmallerJournal(journal, journal', batch[|batch| - 1].key);
    if |batch| < BATCH_SIZE {
      assert journal'.Keys == {};
    }
  }

  lemma MirrorsBoth(t: Table, replica0: map<Bytes, Digest>, replica: map<Bytes, Digest>, replica': map<Bytes, Digest>,
                    keys: seq<Bytes>, page: seq<Bytes>)
    requires Mirrors(t, replica0, replica, keys) && Mirrors(t, replica, replica', page)
    ensures Mirrors(t, replica0, replica', keys + page)
  {
    forall k
      ensures Held(replica', k) == if k in keys + page then Visible(t, k) else Held(replica0, k)
    {
      assert Held(replica', k) == if k in page then Visible(t, k) else Held(replica, k);
      assert Held(replica, k) == if k in keys then Visible(t, k) else Held(replica0, k);
    }
  }

  /** Whether a key lies after the cursor's last position. */
  predicate Follows(after: Option<Bytes>, key: Bytes) {
    after.Some? ==> Lt(after.value, key)
  }

  function KeysOf(batch: seq<Pending>): (keys: seq<Bytes>)
    ensures |keys| == |batch| && forall i :: 0 <= i < |batch| ==> keys[i] == batch[i].key
  {
    seq(|batch|, i requires 0 <= i < |batch| => batch[i].key)
  }

  lemma KeysOfSnoc(batch: seq<Pending>, item: Pending)
    ensures KeysOf(batch + [item]) == KeysOf(batch) + [item.key]
  {
  }

  /** Seeking to a key and stepping over it if it is still there lands on the
      first key after it, present or not. */
  lemma SeekAfter(keys: set<Bytes>, after: Bytes)
    ensures
      var from := set k | k in keys && Le(after, k);
      var rest := if from != {} && First(from) == after then from - {after} else from;
      forall k :: k in rest <==> k in keys && Lt(after, k)
  {
    LtIrreflexive(after);
    var from := set k | k in keys && Le(after, k);
    if from != {} && First(from) != after && after in from {
      LtAsymmetric(First(from), after);
    }
  }

  /** A page extends what was sent before it, and nothing sent lies ahead. */
  lemma PageDone(sent: seq<Bytes>, page: seq<Bytes>, after: Option<Bytes>)
    requires Ascending(sent) && Ascending(page) && page != []
    requires forall k :: k in sent ==> !Follows(after, k)
    requires forall k :: k in page ==> Follows(after, k)
    ensures Ascending(sent + page)
    ensures forall k :: k in sent || k in page ==> !Follows(Some(page[|page| - 1]), k)
  {
    var last := page[|page| - 1];
    forall a, b | a in sent && b in page
      ensures Lt(a, b)
    {
      LtTotal(a, after.value);
      LeLtTransitive(a, after.value, b);
    }
    forall k | k in sent || k in page
      ensures !Lt(last, k)
    {
      LtIrreflexive(last);
      if k in page {
        var i :| 0 <= i < |page| && page[i] == k;
        if i < |page| - 1 {
          LtAsymmetric(page[i], last);
        }
      } else {
        assert last in page;
        LtAsymmetric(k, last);
      }
    }
    forall i, j | 0 <= i < j < |sent + page|
      ensures Lt((sent + page)[i], (sent + page)[j])
    {
      if i < |sent| <= j {
        assert sent[i] in sent && page[j - |sent|] in page;
      }
    }
  }

  lemma SmallerJournal(a: map<Bytes, nat>, b: map<Bytes, nat>, key: Bytes)
    requires b.Keys <= a.Keys && key in a && key !in b
    ensures |b| < |a|
  {
    assert |a.Keys| == |a| && |b.Keys| == |b|;
    assert b.Keys <= a.Keys - {key};
    Subset(b.Keys, a.Keys - {key});
  }

  lemma Subset(a: set<Bytes>, b: set<Bytes>)
    requires a <= b
    ensures |a| <= |b|
  {
    assert b == a + (b - a);
  }
}
