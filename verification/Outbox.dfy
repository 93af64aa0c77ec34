/** The durable replication outbox as a protocol: writers mark keys in the same
    transaction as the data, while deliveries read, snapshot, send and acknowledge. */
module Outbox {
  import opened ByteOrder
  import opened Records
  import opened MetadataStores
  import opened Publication
  import E = Expiration
  import H = History

  /** A pending key on its way to the replica. A snapshot of None is a delete. */
  datatype Delivery =
    | Queued(revision: nat)
    | Prepared(revision: nat, snapshot: Option<Digest>)
    | Sent(revision: nat, snapshot: Option<Digest>)

  datatype State = State(
    table: Table,
    journal: map<Bytes, nat>,
    sequence: nat,
    inflight: map<Bytes, Delivery>,
    replica: map<Bytes, Digest>,
    touched: set<Bytes>) // keys written or seeded so far

  datatype Action =
    | Transact(txn: Txn)
    | Seed(journal: map<Bytes, nat>, sequence: nat)
    | ReadBatch(keys: set<Bytes>)
    | Snapshot(key: Bytes)
    | PrepareFails(key: Bytes)
    | Send(key: Bytes)
    | SendFails(key: Bytes, applied: bool)
    | Acknowledge(key: Bytes)
    | AcknowledgeFails(key: Bytes)
    | Restart(landed: set<Bytes>)

  const BATCH_SIZE := 100

  function Replicated(s: State, key: Bytes): Option<Digest> {
    if key in s.replica then Some(s.replica[key]) else None
  }

  function Receive(replica: map<Bytes, Digest>, key: Bytes, snapshot: Option<Digest>): map<Bytes, Digest> {
    match snapshot
    case None => replica - {key}
    case Some(digest) => replica[key := digest]
  }

  function Marks(txn: Txn): bool {
    !txn.PutMetaRaw?
  }

  /** Seeding marks every key that has a current record, all in one transaction. */
  ghost predicate Seeded(t: Table, journal: map<Bytes, nat>, sequence: nat, journal': map<Bytes, nat>, sequence': nat) {
    && sequence <= sequence'
    && journal'.Keys == journal.Keys + PointerKeys(t)
    && forall k :: k in journal' ==>
         if k in PointerKeys(t) then sequence < journal'[k] <= sequence' else journal'[k] == journal[k]
  }

  ghost predicate Enabled(s: State, a: Action) {
    match a
    case Transact(txn) => E.PossibleTxn(s.table, txn)
    case Seed(journal, sequence) => Seeded(s.table, s.journal, s.sequence, journal, sequence)
    // A page is read only once every delivery of the previous page has ended.
    case ReadBatch(keys) => s.inflight == map[] && keys <= s.journal.Keys && |keys| <= BATCH_SIZE
    case Snapshot(key) => key in s.inflight && s.inflight[key].Queued?
    case PrepareFails(key) => key in s.inflight && s.inflight[key].Queued?
    case Send(key) => key in s.inflight && s.inflight[key].Prepared?
    case SendFails(key, _) => key in s.inflight && s.inflight[key].Prepared?
    case Acknowledge(key) => key in s.inflight && s.inflight[key].Sent?
    case AcknowledgeFails(key) => key in s.inflight && s.inflight[key].Sent?
    case Restart(landed) => forall k :: k in landed ==> k in s.inflight && s.inflight[k].Prepared?
  }

  ghost function Next(s: State, a: Action): State
    requires Enabled(s, a)
  {
    match a
    case Transact(txn) =>
      var s1 := s.(table := Apply(s.table, txn));
      if Marks(txn) then
        s1.(journal := Marked(true, s.journal, s.sequence, H.TxnKey(txn)), sequence := s.sequence + 1,
            touched := s.touched + {H.TxnKey(txn)})
      else
        s1
    case Seed(journal, sequence) =>
      s.(journal := journal, sequence := sequence, touched := s.touched + PointerKeys(s.table))
    case ReadBatch(keys) =>
      s.(inflight := map k | k in keys :: Queued(s.journal[k]))
    case Snapshot(key) =>
      s.(inflight := s.inflight[key := Prepared(s.inflight[key].revision, Visible(s.table, key))])
    case PrepareFails(key) =>
      s.(inflight := s.inflight - {key})
    case Send(key) =>
      s.(inflight := s.inflight[key := Sent(s.inflight[key].revision, s.inflight[key].snapshot)],
         replica := Receive(s.replica, key, s.inflight[key].snapshot))
    case SendFails(key, applied) =>
      s.(inflight := s.inflight - {key},
         replica := if applied then Receive(s.replica, key, s.inflight[key].snapshot) else s.replica)
    case Acknowledge(key) =>
      s.(inflight := s.inflight - {key},
         journal := if key in s.journal && s.journal[key] == s.inflight[key].revision then s.journal - {key} else s.journal)
    case AcknowledgeFails(key) =>
      s.(inflight := s.inflight - {key})
    case Restart(landed) =>
      s.(inflight := map[],
         replica := map k | k in s.replica.Keys + landed &&
                            (if k in landed then s.inflight[k].snapshot.Some? else true) ::
                      if k in landed then s.inflight[k].snapshot.value else s.replica[k])
  }

  ghost predicate DeliveryOk(s: State, key: Bytes)
    requires key in s.inflight
  {
    var d := s.inflight[key];
    && key in s.journal && d.revision <= s.journal[key] <= s.sequence
    && (d.Sent? ==> Replicated(s, key) == d.snapshot)
    && (!d.Queued? && s.journal[key] == d.revision ==> d.snapshot == Visible(s.table, key))
  }

  /** A key in flight stays pending; its snapshot is current unless it was written
      since; and a touched key with nothing pending is mirrored exactly. */
  ghost predicate Inv(s: State) {
    && (forall k :: k in s.journal ==> s.journal[k] <= s.sequence)
    && (forall k :: k in s.inflight ==> DeliveryOk(s, k))
    && (forall k :: k in s.touched && k !in s.journal ==> Replicated(s, k) == Visible(s.table, k))
  }

  /** What a replica mirrors changes only in a transaction that marks the key. */
  lemma VisibleChangesAreMarked(t: Table, txn: Txn, key: Bytes)
    requires E.PossibleTxn(t, txn)
    requires Visible(Apply(t, txn), key) != Visible(t, key)
    ensures Marks(txn) && key == H.TxnKey(txn)
  {
    if key != H.TxnKey(txn) {
      OtherKeysVisible(t, txn, key);
    }
  }

  lemma OtherKeysVisible(t: Table, txn: Txn, key: Bytes)
    requires E.PossibleTxn(t, txn) && key != H.TxnKey(txn)
    ensures Visible(Apply(t, txn), key) == Visible(t, key)
  {
    H.OtherKeys(t, txn, key);
    assert Get(Apply(t, txn), Pointer(key)) == Get(t, Pointer(key));
  }

  lemma TransactKeepsInv(s: State, txn: Txn)
    requires Inv(s) && E.PossibleTxn(s.table, txn)
    ensures Inv(Next(s, Transact(txn)))
  {
    var s1 := Next(s, Transact(txn));
    forall k | k != H.TxnKey(txn) || !Marks(txn)
      ensures Visible(s1.table, k) == Visible(s.table, k)
    {
      if Visible(s1.table, k) != Visible(s.table, k) {
        VisibleChangesAreMarked(s.table, txn, k);
      }
    }
    forall k | k in s1.inflight
      ensures DeliveryOk(s1, k)
    {
      assert DeliveryOk(s, k);
      assert Replicated(s1, k) == Replicated(s, k);
    }
    forall k | k in s1.touched && k !in s1.journal
      ensures Replicated(s1, k) == Visible(s1.table, k)
    {
      assert Replicated(s1, k) == Replicated(s, k);
    }
  }

  lemma DeliveryKeepsInv(s: State, a: Action)
    requires Inv(s) && Enabled(s, a) && !a.Transact? && !a.Restart?
    ensures Inv(Next(s, a))
  {
    var s1 := Next(s, a);
    forall k | k in s1.inflight
      ensures DeliveryOk(s1, k)
    {
      assert k in s.inflight ==> DeliveryOk(s, k);
    }
    forall k | k in s1.touched && k !in s1.journal
      ensures Replicated(s1, k) == Visible(s1.table, k)
    {
      assert k in s.inflight ==> DeliveryOk(s, k);
    }
  }

  lemma RestartKeepsInv(s: State, landed: set<Bytes>)
    requires Inv(s) && Enabled(s, Restart(landed))
    ensures Inv(Next(s, Restart(landed)))
  {
    var s1 := Next(s, Restart(landed));
    forall k | k in s1.touched && k !in s1.journal
      ensures Replicated(s1, k) == Visible(s1.table, k)
    {
      assert k in s.inflight ==> DeliveryOk(s, k);
      assert Replicated(s1, k) == Replicated(s, k);
    }
  }

  ghost predicate Runs(s: State, actions: seq<Action>)
    decreases |actions|
  {
    actions == [] || (Enabled(s, actions[0]) && Runs(Next(s, actions[0]), actions[1..]))
  }

  ghost function Final(s: State, actions: seq<Action>): State
    requires Runs(s, actions)
    decreases |actions|
  {
    if actions == [] then s else Final(Next(s, actions[0]), actions[1..])
  }

  /** A process starts with an arbitrary journal and replica, nothing in flight. */
  predicate Starts(s: State) {
    s.inflight == map[] && s.touched == {} && forall k :: k in s.journal ==> s.journal[k] <= s.sequence
  }

  lemma {:induction false} RunKeepsInv(s: State, actions: seq<Action>)
    requires Inv(s) && Runs(s, actions)
    ensures Inv(Final(s, actions))
    decreases |actions|
  {
    if actions != [] {
      match actions[0] {
        case Transact(txn) => TransactKeepsInv(s, txn);
        case Restart(landed) => RestartKeepsInv(s, landed);
        case _ => DeliveryKeepsInv(s, actions[0]);
      }
      RunKeepsInv(Next(s, actions[0]), actions[1..]);
    }
  }

  /** Some action of the run wrote the key, or seeded it while it had a record. */
  ghost predicate WrittenOrSeeded(s: State, actions: seq<Action>, key: Bytes)
    requires Runs(s, actions)
    decreases |actions|
  {
    actions != [] &&
    (WritesOrSeeds(s, actions[0], key) || WrittenOrSeeded(Next(s, actions[0]), actions[1..], key))
  }

  /** Promoting an object to version "null" is no write of it. */
  predicate WritesOrSeeds(s: State, a: Action, key: Bytes) {
    match a
    case Transact(PutMeta(info)) => info.key == key
    case Transact(DeleteMeta(k, _)) => k == key
    case Seed(_, _) => Lookup(s.table, key, "").Some?
    case _ => false
  }

  lemma {:induction false} TouchedIff(s: State, actions: seq<Action>, key: Bytes)
    requires Runs(s, actions)
    ensures key in Final(s, actions).touched <==> key in s.touched || WrittenOrSeeded(s, actions, key)
    decreases |actions|
  {
    if actions != [] {
      TouchedIff(Next(s, actions[0]), actions[1..], key);
    }
  }

  /** In every interleaving of writes, seeding, deliveries, failures and restarts:
      a key that was written or seeded and has nothing pending is on the replica
      if and only if a read of the key finds a record here that is no delete marker,
      and then the replica holds that record's object. */
  lemma NothingPendingMeansMirrored(s: State, actions: seq<Action>, key: Bytes)
    requires Starts(s) && Runs(s, actions)
    requires WrittenOrSeeded(s, actions, key) && key !in Final(s, actions).journal
    ensures
      var s1 := Final(s, actions);
      var found := Lookup(s1.table, key, "");
      && (key in s1.replica <==> found.Some? && !found.value.isDeleteMarker)
      && (key in s1.replica ==> s1.replica[key] == found.value.etag)
  {
    RunKeepsInv(s, actions);
    TouchedIff(s, actions, key);
  }

  /** An acknowledgement that comes after a newer write leaves that write pending,
      whatever happened while the delivery was under way. */
  lemma NewerWorkStaysPending(s: State, actions: seq<Action>, txn: Txn, key: Bytes)
    requires Starts(s) && Runs(s, actions)
    requires E.PossibleTxn(Final(s, actions).table, txn) && Marks(txn) && H.TxnKey(txn) == key
    requires key in Final(s, actions).inflight && Final(s, actions).inflight[key].Sent?
    ensures
      var s1 := Next(Final(s, actions), Transact(txn));
      Enabled(s1, Acknowledge(key)) && Next(s1, Acknowledge(key)).journal == s1.journal && key in s1.journal
  {
    RunKeepsInv(s, actions);
    assert DeliveryOk(Final(s, actions), key);
  }
}
