/** Version listings: every version and delete marker of every key, newest first
    within a key, gathered from one cursor pass. */
module VersionListing {
  import opened ByteOrder
  import opened Records
  import opened MetadataStores
  import opened RollUp
  import L = Listing

  datatype Request = Request(prefix: Bytes, delimiter: Bytes, keyMarker: Bytes, versionIdMarker: Bytes, maxKeys: int)

  datatype Page = Page(
    versions: seq<ObjectInfo>,
    deleteMarkers: seq<ObjectInfo>,
    commonPrefixes: seq<Bytes>,
    isTruncated: bool,
    nextKeyMarker: Bytes,
    nextVersionIdMarker: Bytes)

  /** One line of a listing. */
  datatype Entry = CommonPrefix(prefix: Bytes) | ObjectVersion(info: ObjectInfo)

  // ------------------------------------------------------------- newest first

  function Insert(info: ObjectInfo, s: seq<ObjectInfo>): (r: seq<ObjectInfo>)
    ensures multiset(r) == multiset(s) + multiset{info}
  {
    if s != [] && s[0].modified > info.modified then
      assert s == [s[0]] + s[1..];
      [s[0]] + Insert(info, s[1..])
    else
      [info] + s
  }

  /** Stable sorting by modification time, latest first. */
  function NewestFirst(s: seq<ObjectInfo>): (r: seq<ObjectInfo>)
    ensures multiset(r) == multiset(s) && |r| == |s|
  {
    if s == [] then
      []
    else
      assert s == [s[0]] + s[1..];
      var r := Insert(s[0], NewestFirst(s[1..]));
      assert |r| == |multiset(r)| && |s| == |multiset(s)|;
      r
  }

  predicate Descending(s: seq<ObjectInfo>) {
    forall i, j :: 0 <= i < j < |s| ==> s[i].modified >= s[j].modified
  }

  lemma {:induction false} InsertDescending(info: ObjectInfo, s: seq<ObjectInfo>)
    requires Descending(s)
    ensures Descending(Insert(info, s))
  {
    if s != [] && s[0].modified > info.modified {
      InsertDescending(info, s[1..]);
      var r := Insert(info, s[1..]);
      forall j | 0 <= j < |r|
        ensures s[0].modified >= r[j].modified
      {
        assert r[j] in multiset(r);
        assert r[j] == info || r[j] in s[1..];
      }
    }
  }

  lemma {:induction false} NewestFirstDescends(s: seq<ObjectInfo>)
    ensures Descending(NewestFirst(s))
  {
    if s != [] {
      NewestFirstDescends(s[1..]);
      InsertDescending(s[0], NewestFirst(s[1..]));
    }
  }

  function WithTime(s: seq<ObjectInfo>, time: int): seq<ObjectInfo> {
    if s == [] then [] else (if s[0].modified == time then [s[0]] else []) + WithTime(s[1..], time)
  }

  /** Versions modified at the same time keep the order they were gathered in. */
  lemma {:induction false} NewestFirstIsStable(s: seq<ObjectInfo>, time: int)
    ensures WithTime(NewestFirst(s), time) == WithTime(s, time)
  {
    if s != [] {
      NewestFirstIsStable(s[1..], time);
      InsertIsStable(s[0], NewestFirst(s[1..]), time);
    }
  }

  lemma {:induction false} InsertIsStable(info: ObjectInfo, s: seq<ObjectInfo>, time: int)
    ensures WithTime(Insert(info, s), time) == (if info.modified == time then [info] else []) + WithTime(s, time)
  {
    if s != [] && s[0].modified > info.modified {
      InsertIsStable(info, s[1..], time);
    }
  }

  // ------------------------------------------------------------ specification

  function Versions(t: Table, key: Bytes): seq<ObjectInfo> {
    NewestFirst(KeyVersions(t, key))
  }

  function MarkerVersionId(versionId: Bytes): Bytes {
    if versionId == "" then "null" else versionId
  }

  /** The versions after the marker's: none if it names none, or one that is gone. */
  function VersionsAfterMarker(versions: seq<ObjectInfo>, versionIdMarker: Bytes): seq<ObjectInfo> {
    if versionIdMarker == "" || versions == [] then
      []
    else if MarkerVersionId(versions[0].versionId) == versionIdMarker then
      versions[1..]
    else
      VersionsAfterMarker(versions[1..], versionIdMarker)
  }

  function Limit(r: Request): (n: nat)
    ensures n > 0
  {
    if r.maxKeys <= 0 then L.DEFAULT_MAX_KEYS else r.maxKeys
  }

  /** A key marker that stands for everything below it. */
  predicate MarkerIsPrefix(r: Request) {
    r.keyMarker != "" && L.EndsInDelimiter(r.delimiter, r.keyMarker)
  }

  function ResumeKey(r: Request): Bytes {
    if MarkerIsPrefix(r) then r.keyMarker + [MAX_BYTE] else r.keyMarker
  }

  predicate FromMarker(r: Request, key: Bytes) {
    if MarkerIsPrefix(r) then Lt(r.keyMarker, key) && !HasPrefix(key, r.keyMarker) else Le(r.keyMarker, key)
  }

  function Keys(t: Table, r: Request): (keys: set<Bytes>)
    ensures forall k :: k in keys <==> Pointer(k) in t && HasPrefix(k, r.prefix) && FromMarker(r, k)
  {
    set k | k in PointerKeys(t) && HasPrefix(k, r.prefix) && FromMarker(r, k)
  }

  function Wrap(infos: seq<ObjectInfo>): (r: seq<Entry>)
    ensures |r| == |infos| && forall i :: 0 <= i < |r| ==> r[i] == ObjectVersion(infos[i])
  {
    seq(|infos|, i requires 0 <= i < |infos| => ObjectVersion(infos[i]))
  }

  /** What one name contributes to the listing. */
  function Expand(t: Table, r: Request, name: Bytes): seq<Entry> {
    if L.Rolled(r.prefix, r.delimiter, name) then
      [CommonPrefix(name)]
    else if name == r.keyMarker && !MarkerIsPrefix(r) then
      Wrap(VersionsAfterMarker(Versions(t, name), r.versionIdMarker))
    else
      Wrap(Versions(t, name))
  }

  function ExpandAll(t: Table, r: Request, names: seq<Bytes>): seq<Entry> {
    if names == [] then [] else Expand(t, r, names[0]) + ExpandAll(t, r, names[1..])
  }

  /** The whole listing from the request's markers on. */
  function Entries(t: Table, r: Request): seq<Entry> {
    ExpandAll(t, r, Ordered(Names(r.prefix, r.delimiter, Keys(t, r))))
  }

  function Live(entries: seq<Entry>): seq<ObjectInfo> {
    if entries == [] then [] else
      var e := entries[|entries| - 1];
      Live(entries[..|entries| - 1]) + if e.ObjectVersion? && !e.info.isDeleteMarker then [e.info] else []
  }

  function DeleteMarkers(entries: seq<Entry>): seq<ObjectInfo> {
    if entries == [] then [] else
      var e := entries[|entries| - 1];
      DeleteMarkers(entries[..|entries| - 1]) + if e.ObjectVersion? && e.info.isDeleteMarker then [e.info] else []
  }

  function CommonPrefixes(entries: seq<Entry>): seq<Bytes> {
    if entries == [] then [] else
      var e := entries[|entries| - 1];
      CommonPrefixes(entries[..|entries| - 1]) + if e.CommonPrefix? then [e.prefix] else []
  }

  function Shown(entries: seq<Entry>): Page {
    Page(Live(entries), DeleteMarkers(entries), CommonPrefixes(entries), false, "", "")
  }

  function EntryKey(e: Entry): Bytes {
    match e
    case CommonPrefix(prefix) => prefix
    case ObjectVersion(info) => info.key
  }

  function EntryVersionId(e: Entry): Bytes {
    match e
    case CommonPrefix(_) => ""
    case ObjectVersion(info) => MarkerVersionId(info.versionId)
  }

  function Truncated(page: Page, last: Entry): Page {
    page.(isTruncated := true, nextKeyMarker := EntryKey(last), nextVersionIdMarker := EntryVersionId(last))
  }

  function PageOf(t: Table, r: Request): Page {
    var entries, n := Entries(t, r), Limit(r);
    if |entries| <= n then Shown(entries) else Truncated(Shown(entries[..n]), entries[n - 1])
  }

  // ---------------------------------------------------------- keys of raw keys

  /** The object key of a raw key: everything before its first NUL. */
  function ObjectKeyOf(raw: Bytes): Bytes {
    if raw == [] || raw[0] == NUL then [] else [raw[0]] + ObjectKeyOf(raw[1..])
  }

  lemma {:induction false} RawOfKey(key: Bytes, tail: Bytes)
    requires CleanKey(key) && (tail == [] || tail[0] == NUL)
    ensures ObjectKeyOf(key + tail) == key
  {
    if key == [] {
      assert key + tail == tail;
    } else {
      assert (key + tail)[1..] == key[1..] + tail;
      RawOfKey(key[1..], tail);
    }
  }

  lemma KeyOfRaw(rk: RecordKey)
    requires CleanKey(rk.key)
    ensures ObjectKeyOf(L.RawKey(rk)) == rk.key
  {
    match rk
    case Pointer(key) =>
      RawOfKey(key, []);
      assert key + [] == key;
    case Version(key, versionId) =>
      RawOfKey(key, [NUL] + versionId);
      Concat(key, [NUL], versionId);
  }

  lemma {:induction false} KeysInOrder(a: Bytes, b: Bytes)
    requires Lt(a, b)
    ensures Le(ObjectKeyOf(a), ObjectKeyOf(b))
  {
    if a != [] && a[0] != NUL && a[0] == b[0] {
      KeysInOrder(a[1..], b[1..]);
    } else {
      assert a == [] || a[0] == NUL || a[0] < b[0];
    }
  }

  lemma {:induction false} KeyOfIsLe(a: Bytes)
    ensures Le(ObjectKeyOf(a), a)
  {
    if a != [] && a[0] != NUL {
      KeyOfIsLe(a[1..]);
      assert a == [a[0]] + a[1..];
    }
  }

  /** Seeking to a string without NUL never lands inside a key's records. */
  lemma {:induction false} SeekWholeKeys(from: Bytes, raw: Bytes)
    requires NUL !in from && Le(from, raw)
    ensures Le(from, ObjectKeyOf(raw))
  {
    if from != [] {
      assert from[0] in from;
      if raw[0] == from[0] {
        assert from == [from[0]] + from[1..] && raw == [raw[0]] + raw[1..];
        assert Le(from[1..], raw[1..]);
        SeekWholeKeys(from[1..], raw[1..]);
      }
    }
  }

  // ----------------------------------------------------------------- the scan

  /** What the scan knows of the raw keys ahead: they are the last of those stored,
      and of every key under the prefix either all or none of the records. */
  ghost predicate Ahead(t: Table, r: Request, rest: set<Bytes>) {
    && rest <= L.RawKeys(t)
    && (forall x, y :: x in rest && y in L.RawKeys(t) && Lt(x, y) ==> y in rest)
    && (NUL !in r.prefix ==> forall raw :: raw in rest ==>
          && ObjectKeyOf(raw) in rest
          && Le(r.prefix, ObjectKeyOf(raw))
          && FromMarker(r, ObjectKeyOf(raw)))
  }

  lemma StoredRaw(t: Table, raw: Bytes) returns (rk: RecordKey)
    requires L.CleanTable(t) && raw in L.RawKeys(t)
    ensures rk in t && L.RawKey(rk) == raw && rk.key == ObjectKeyOf(raw) && L.ParseRaw(raw) == rk && CleanKey(rk.key)
  {
    rk :| rk in t && L.RawKey(rk) == raw;
    KeyOfRaw(rk);
    L.ParseRawKey(rk);
  }

  lemma PointerIsStored(t: Table, raw: Bytes)
    requires Consistent(t) && L.CleanTable(t) && raw in L.RawKeys(t)
    ensures Pointer(ObjectKeyOf(raw)) in t && ObjectKeyOf(raw) in L.RawKeys(t) && CleanKey(ObjectKeyOf(raw))
  {
    var rk := StoredRaw(t, raw);
    assert RecordOk(t, rk);
    assert L.RawKey(Pointer(rk.key)) == rk.key;
  }

  lemma NoNulInPrefixOf(key: Bytes, prefix: Bytes)
    requires CleanKey(key) && HasPrefix(key, prefix)
    ensures NUL !in prefix
  {
    assert forall i :: 0 <= i < |prefix| ==> prefix[i] == key[i];
  }

  lemma ResumeKeyIsLe(r: Request, key: Bytes)
    requires CleanKey(key)
    ensures Le(ResumeKey(r), key) <==> FromMarker(r, key)
  {
    if MarkerIsPrefix(r) {
      AtOrPast(r.keyMarker, key);
    }
  }

  lemma ScanStarts(t: Table, r: Request, start: Bytes)
    requires Consistent(t) && L.CleanTable(t) && NUL !in r.keyMarker
    requires start == L.AdvanceToken(r.prefix, ResumeKey(r))
    ensures Ahead(t, r, L.Seek(L.RawKeys(t), start))
    ensures Keys(t, r) <= L.Seek(L.RawKeys(t), start)
  {
    var rest := L.Seek(L.RawKeys(t), start);
    L.AdvanceTokenIsGreatest(r.prefix, ResumeKey(r));
    forall x, y | x in rest && y in L.RawKeys(t) && Lt(x, y)
      ensures y in rest
    {
      LeLtTransitive(start, x, y);
    }
    forall raw | raw in rest && NUL !in r.prefix
      ensures ObjectKeyOf(raw) in rest && Le(r.prefix, ObjectKeyOf(raw)) && FromMarker(r, ObjectKeyOf(raw))
    {
      PointerIsStored(t, raw);
      SeekWholeKeys(start, raw);
      L.LeTransitive(r.prefix, start, ObjectKeyOf(raw));
      L.LeTransitive(ResumeKey(r), start, ObjectKeyOf(raw));
      ResumeKeyIsLe(r, ObjectKeyOf(raw));
    }
    forall k | k in Keys(t, r)
      ensures k in rest
    {
      assert L.RawKey(Pointer(k)) == k && CleanKey(Pointer(k).key);
      PrefixIsLe(k, r.prefix);
      ResumeKeyIsLe(r, k);
    }
  }

  /** The records of one key. */
  function Group(rest: set<Bytes>, key: Bytes): set<Bytes> {
    set raw | raw in rest && ObjectKeyOf(raw) == key
  }

  /** Where the cursor goes once the key it is at is listed: past everything below
      the rolled-up prefix, or past the key's records. */
  function Onward(t: Table, r: Request, rest: set<Bytes>, key: Bytes): set<Bytes>
    requires HasPrefix(key, r.prefix)
  {
    if RolledUp(r.prefix, r.delimiter, key) then
      L.Seek(L.RawKeys(t), NameOf(r.prefix, r.delimiter, key) + [MAX_BYTE])
    else
      rest - Group(rest, key)
  }

  /** A cursor in a key group it has not entered yet stands at the key's pointer. */
  lemma AtPointer(t: Table, r: Request, rest: set<Bytes>, raw: Bytes)
    requires Consistent(t) && L.CleanTable(t) && Ahead(t, r, rest)
    requires raw in rest && (forall x :: x in rest ==> Le(raw, x)) && HasPrefix(ObjectKeyOf(raw), r.prefix)
    ensures raw == ObjectKeyOf(raw) && raw in Keys(t, r) && CleanKey(raw)
  {
    PointerIsStored(t, raw);
    NoNulInPrefixOf(ObjectKeyOf(raw), r.prefix);
    KeyOfIsLe(raw);
    if ObjectKeyOf(raw) != raw {
      LtAsymmetric(ObjectKeyOf(raw), raw);
    }
  }

  lemma PastNameKey(t: Table, r: Request, key: Bytes, raw: Bytes)
    requires Consistent(t) && L.CleanTable(t) && CleanKey(key) && HasPrefix(key, r.prefix)
    requires raw in L.RawKeys(t) && Le(NameOf(r.prefix, r.delimiter, key) + [MAX_BYTE], raw)
    ensures ObjectKeyOf(raw) in L.RawKeys(t) && Le(NameOf(r.prefix, r.delimiter, key) + [MAX_BYTE], ObjectKeyOf(raw))
  {
    var name := NameOf(r.prefix, r.delimiter, key);
    PointerIsStored(t, raw);
    NoNulInPrefixOf(key, name);
    SeekWholeKeys(name + [MAX_BYTE], raw);
  }

  lemma PastName(t: Table, r: Request, rest: set<Bytes>, key: Bytes, raw: Bytes)
    requires Consistent(t) && L.CleanTable(t) && Ahead(t, r, rest)
    requires key in rest && CleanKey(key) && HasPrefix(key, r.prefix)
    requires raw in L.RawKeys(t) && Le(NameOf(r.prefix, r.delimiter, key) + [MAX_BYTE], raw)
    ensures raw in rest && raw != key
    ensures ObjectKeyOf(raw) in L.RawKeys(t) && Le(NameOf(r.prefix, r.delimiter, key) + [MAX_BYTE], ObjectKeyOf(raw))
  {
    PastNameKey(t, r, key, raw);
    BeforePast(NameOf(r.prefix, r.delimiter, key), key, raw);
  }

  lemma BeforePast(name: Bytes, key: Bytes, raw: Bytes)
    requires CleanKey(key) && HasPrefix(key, name) && Le(name + [MAX_BYTE], raw)
    ensures Lt(key, raw) && raw != key
  {
    SkipPast(name, key);
    if raw != name + [MAX_BYTE] {
      LtTransitive(key, name + [MAX_BYTE], raw);
    }
    LtIrreflexive(key);
  }

  lemma OnwardFromName(t: Table, r: Request, rest: set<Bytes>, key: Bytes, k: Bytes)
    requires Consistent(t) && L.CleanTable(t) && Ahead(t, r, rest)
    requires key in rest && (forall x :: x in rest ==> Le(key, x)) && CleanKey(key) && HasPrefix(key, r.prefix)
    requires RolledUp(r.prefix, r.delimiter, key) && k in L.RawKeys(t) && CleanKey(k)
    ensures k in Onward(t, r, rest, key) <==> k in rest && !HasPrefix(k, NameOf(r.prefix, r.delimiter, key))
  {
    BelowOrPast(NameOf(r.prefix, r.delimiter, key), key, k);
    if Le(NameOf(r.prefix, r.delimiter, key) + [MAX_BYTE], k) {
      PastName(t, r, rest, key, k);
    }
  }

  /** From a key below a name on, a key is past the name exactly if it is not below
      it. */
  lemma BelowOrPast(name: Bytes, key: Bytes, k: Bytes)
    requires HasPrefix(key, name) && CleanKey(k)
    ensures Le(key, k) ==> (Le(name + [MAX_BYTE], k) <==> !HasPrefix(k, name))
    ensures Le(name + [MAX_BYTE], k) ==> !HasPrefix(k, name)
  {
    AtOrPast(name, k);
    if Le(key, k) {
      NameIsLe(name, key, k);
    }
  }

  lemma NameIsLe(name: Bytes, key: Bytes, k: Bytes)
    requires HasPrefix(key, name) && Le(key, k)
    ensures Le(name, k)
  {
    PrefixIsLe(key, name);
    L.LeTransitive(name, key, k);
  }

  lemma OnwardFromGroup(t: Table, r: Request, rest: set<Bytes>, key: Bytes, raw: Bytes)
    requires Consistent(t) && L.CleanTable(t) && Ahead(t, r, rest)
    requires key in rest && (forall x :: x in rest ==> Le(key, x)) && CleanKey(key) && HasPrefix(key, r.prefix)
    requires raw in rest && ObjectKeyOf(raw) != key
    ensures forall y :: y in L.RawKeys(t) && Lt(raw, y) ==> y in rest && ObjectKeyOf(y) != key
  {
    KeyOfRaw(Pointer(key));
    KeysInOrder(key, raw);
    forall y | y in L.RawKeys(t) && Lt(raw, y)
      ensures ObjectKeyOf(y) != key
    {
      KeysInOrder(raw, y);
      LeLtTransitive(key, ObjectKeyOf(raw), ObjectKeyOf(y));
      LtIrreflexive(key);
    }
  }

  lemma PrefixSkipIsAhead(t: Table, r: Request, rest: set<Bytes>, key: Bytes)
    requires Consistent(t) && L.CleanTable(t) && Ahead(t, r, rest)
    requires key in rest && CleanKey(key) && HasPrefix(key, r.prefix)
    ensures
      var next := L.Seek(L.RawKeys(t), NameOf(r.prefix, r.delimiter, key) + [MAX_BYTE]);
      Ahead(t, r, next) && next < rest
  {
    var to := NameOf(r.prefix, r.delimiter, key) + [MAX_BYTE];
    var next := L.Seek(L.RawKeys(t), to);
    forall x, y | x in next && y in L.RawKeys(t) && Lt(x, y)
      ensures y in next
    {
      LeLtTransitive(to, x, y);
    }
    forall raw | raw in next
      ensures raw in rest && raw != key && ObjectKeyOf(raw) in next
    {
      PastName(t, r, rest, key, raw);
    }
  }

  lemma GroupSkipIsAhead(t: Table, r: Request, rest: set<Bytes>, key: Bytes)
    requires Consistent(t) && L.CleanTable(t) && Ahead(t, r, rest) && NUL !in r.prefix
    requires key in rest && (forall x :: x in rest ==> Le(key, x)) && CleanKey(key) && HasPrefix(key, r.prefix)
    ensures Ahead(t, r, rest - Group(rest, key)) && rest - Group(rest, key) < rest
  {
    var next := rest - Group(rest, key);
    KeyOfRaw(Pointer(key));
    assert key in Group(rest, key);
    forall raw | raw in next
      ensures ObjectKeyOf(raw) in next
    {
      PointerIsStored(t, raw);
      KeyOfRaw(Pointer(ObjectKeyOf(raw)));
    }
    forall x, y | x in next && y in L.RawKeys(t) && Lt(x, y)
      ensures y in next
    {
      OnwardFromGroup(t, r, rest, key, x);
    }
  }

  lemma OnwardIsAhead(t: Table, r: Request, rest: set<Bytes>, key: Bytes)
    requires Consistent(t) && L.CleanTable(t) && Ahead(t, r, rest)
    requires key in rest && (forall x :: x in rest ==> Le(key, x)) && CleanKey(key) && HasPrefix(key, r.prefix)
    ensures Ahead(t, r, Onward(t, r, rest, key)) && Onward(t, r, rest, key) < rest
  {
    if RolledUp(r.prefix, r.delimiter, key) {
      PrefixSkipIsAhead(t, r, rest, key);
    } else {
      NoNulInPrefixOf(key, r.prefix);
      GroupSkipIsAhead(t, r, rest, key);
    }
  }

  /** The entries a scan has still to list. */
  function Remaining(t: Table, r: Request, rest: set<Bytes>): seq<Entry> {
    ExpandAll(t, r, Ordered(Names(r.prefix, r.delimiter, Keys(t, r) * rest)))
  }

  /** Listing the key the cursor is at leaves the entries of the other names. */
  lemma TakeName(t: Table, r: Request, rest: set<Bytes>, key: Bytes)
    requires Consistent(t) && L.CleanTable(t) && Ahead(t, r, rest)
    requires key in rest && (forall x :: x in rest ==> Le(key, x)) && CleanKey(key) && key in Keys(t, r)
    ensures Remaining(t, r, rest)
         == Expand(t, r, NameOf(r.prefix, r.delimiter, key)) + Remaining(t, r, Onward(t, r, rest, key))
  {
    var keys, next, name := Keys(t, r), Onward(t, r, rest, key), NameOf(r.prefix, r.delimiter, key);
    NameIsListedUnderItself(r.prefix, r.delimiter, key);
    L.SameName(r.prefix, r.delimiter, key);
    forall k | k in keys
      ensures k in next <==> k in rest && NameOf(r.prefix, r.delimiter, k) != name
    {
      KeyOfRaw(Pointer(k));
      assert L.RawKey(Pointer(k)) == k;
      ListedUnder(r.prefix, r.delimiter, name, k);
      if RolledUp(r.prefix, r.delimiter, key) {
        OnwardFromName(t, r, rest, key, k);
      }
    }
    NextName(r.prefix, r.delimiter, keys * rest, keys * next, key);
    var names := Ordered(Names(r.prefix, r.delimiter, keys * next));
    assert ([name] + names)[1..] == names;
  }

  // -------------------------------------------------- gathering a key's versions

  function RawVersion(key: Bytes, v: Bytes): Bytes {
    L.RawKey(Version(key, v))
  }

  /** The versions of a key whose records are ahead of the cursor. */
  function IdsAhead(t: Table, rest: set<Bytes>, key: Bytes): (ids: set<Bytes>)
    ensures forall v :: v in ids <==> Version(key, v) in t && RawVersion(key, v) in rest
  {
    set v | v in VersionIds(t, key) && RawVersion(key, v) in rest
  }

  /** What is still to be gathered of a key, its current version apart. */
  function ToGather(t: Table, rest: set<Bytes>, key: Bytes): seq<ObjectInfo>
    requires Pointer(key) in t
  {
    (if key in rest then [t[Pointer(key)]] else [])
    + InOrder(t, key, IdsAhead(t, rest, key) - {t[Pointer(key)].versionId})
  }

  lemma GatherPointer(t: Table, rest: set<Bytes>, key: Bytes)
    requires L.CleanTable(t) && Pointer(key) in t && key in rest
    ensures ToGather(t, rest, key) == [t[Pointer(key)]] + ToGather(t, rest - {key}, key)
    ensures IdsAhead(t, rest - {key}, key) == IdsAhead(t, rest, key)
  {
    forall v | Version(key, v) in t
      ensures RawVersion(key, v) != key
    {
      assert |RawVersion(key, v)| > |key|;
    }
    assert IdsAhead(t, rest - {key}, key) == IdsAhead(t, rest, key);
    var later := InOrder(t, key, IdsAhead(t, rest, key) - {t[Pointer(key)].versionId});
    assert [] + later == later;
  }

  lemma GatherVersion(t: Table, rest: set<Bytes>, key: Bytes, v: Bytes)
    requires Consistent(t) && L.CleanTable(t) && Pointer(key) in t && Version(key, v) in t
    requires RawVersion(key, v) in rest && forall x :: x in rest ==> Le(RawVersion(key, v), x)
    ensures key !in rest
    ensures IdsAhead(t, rest - {RawVersion(key, v)}, key) == IdsAhead(t, rest, key) - {v}
    ensures ToGather(t, rest, key)
         == (if v == t[Pointer(key)].versionId then [] else [t[Version(key, v)]])
            + ToGather(t, rest - {RawVersion(key, v)}, key)
  {
    var raw, ids := RawVersion(key, v), IdsAhead(t, rest, key);
    assert raw[..|key|] == key;
    ProperPrefixIsLess(key, raw);
    LtAsymmetric(key, raw);
    forall w | w in ids
      ensures Le(v, w) && (RawVersion(key, w) == raw ==> w == v)
    {
      LtSamePrefix(key + [NUL], v, w);
      assert raw[|key| + 1..] == v && RawVersion(key, w)[|key| + 1..] == w;
    }
    if First(ids) != v {
      LtAsymmetric(First(ids), v);
    }
    assert IdsAhead(t, rest - {raw}, key) == ids - {v};
    NextInOrder(t, key, ids, {t[Pointer(key)].versionId});
    var later := InOrder(t, key, ids - {v} - {t[Pointer(key)].versionId});
    assert [] + later == later;
  }

  /** How far the gathering of a key has come. */
  ghost predicate Gathering(t: Table, from: set<Bytes>, rest: set<Bytes>, key: Bytes, versions: seq<ObjectInfo>, seen: set<Bytes>) {
    && Pointer(key) in t && rest <= from && from - rest <= Group(from, key)
    && KeyVersions(t, key) == versions + ToGather(t, rest, key)
    && (if key in rest then
          versions == [] && seen == {}
        else
          forall v :: v in IdsAhead(t, rest, key) ==> (v in seen <==> v == t[Pointer(key)].versionId))
  }

  lemma GatherStarts(t: Table, r: Request, from: set<Bytes>, key: Bytes)
    requires Consistent(t) && L.CleanTable(t) && Ahead(t, r, from) && key in from && Pointer(key) in t
    ensures Gathering(t, from, from, key, [], {})
  {
    forall v | Version(key, v) in t
      ensures RawVersion(key, v) in from
    {
      var raw := RawVersion(key, v);
      assert raw[..|key|] == key;
      ProperPrefixIsLess(key, raw);
      assert L.RawKey(Version(key, v)) == raw;
    }
    assert IdsAhead(t, from, key) == VersionIds(t, key);
    assert [] + ToGather(t, from, key) == ToGather(t, from, key);
  }

  lemma GatherStep(t: Table, from: set<Bytes>, rest: set<Bytes>, key: Bytes, versions: seq<ObjectInfo>, seen: set<Bytes>, raw: Bytes)
    requires Consistent(t) && L.CleanTable(t) && from <= L.RawKeys(t)
    requires Gathering(t, from, rest, key, versions, seen)
    requires raw in rest && (forall x :: x in rest ==> Le(raw, x)) && ObjectKeyOf(raw) == key
    ensures L.ParseRaw(raw) in t && rest - {raw} < rest
    ensures
      var info := t[L.ParseRaw(raw)];
      if info.versionId in seen then
        Gathering(t, from, rest - {raw}, key, versions, seen)
      else
        Gathering(t, from, rest - {raw}, key, versions + [info], seen + {info.versionId})
  {
    var rk := StoredRaw(t, raw);
    var info := t[rk];
    assert RecordOk(t, rk);
    var later := ToGather(t, rest - {raw}, key);
    Concat(versions, [info], later);
    if rk.Pointer? {
      GatherPointer(t, rest, key);
    } else {
      GatherVersion(t, rest, key, rk.versionId);
      assert [] + later == later;
    }
  }

  lemma GatherEnds(t: Table, from: set<Bytes>, rest: set<Bytes>, key: Bytes, versions: seq<ObjectInfo>, seen: set<Bytes>)
    requires L.CleanTable(t) && from <= L.RawKeys(t) && Gathering(t, from, rest, key, versions, seen)
    requires key in from && forall x :: x in from ==> Le(key, x)
    requires rest != {} ==> ObjectKeyOf(First(rest)) != key
    ensures versions == KeyVersions(t, key) && rest == from - Group(from, key)
  {
    KeyOfRaw(Pointer(key));
    forall x | x in rest
      ensures ObjectKeyOf(x) != key
    {
      var first := First(rest);
      KeysInOrder(key, first);
      if first != x {
        KeysInOrder(first, x);
        if ObjectKeyOf(x) == key {
          LeLtTransitive(key, ObjectKeyOf(first), key);
          LtIrreflexive(key);
        }
      }
    }
    forall v | v in IdsAhead(t, rest, key)
      ensures ObjectKeyOf(RawVersion(key, v)) == key
    {
      KeyOfRaw(Version(key, v));
    }
    assert IdsAhead(t, rest, key) == {};
    assert key !in rest;
    assert ToGather(t, rest, key) == [];
  }

  /** Collects every version of the key under the cursor, and leaves the cursor at
      the next key. */
  method GatherVersions(t: Table, r: Request, from: set<Bytes>, key: Bytes) returns (versions: seq<ObjectInfo>, rest: set<Bytes>)
    requires Consistent(t) && L.CleanTable(t) && Ahead(t, r, from)
    requires key in from && Pointer(key) in t && forall x :: x in from ==> Le(key, x)
    ensures versions == KeyVersions(t, key) && rest == from - Group(from, key)
  {
    versions, rest := [], from;
    var seenVer: set<Bytes> := {};
    GatherStarts(t, r, from, key);
    while rest != {} && ObjectKeyOf(First(rest)) == key
      invariant Gathering(t, from, rest, key, versions, seenVer)
      decreases rest
    {
      var k := First(rest);
      GatherStep(t, from, rest, key, versions, seenVer, k);
      var info := t[L.ParseRaw(k)];
      if info.versionId !in seenVer {
        seenVer := seenVer + {info.versionId};
        versions := versions + [info];
      }
      rest := rest - {k};
    }
    GatherEnds(t, from, rest, key, versions, seenVer);
  }

  // ----------------------------------------------------------------- the pages

  lemma ShownSnoc(entries: seq<Entry>, e: Entry)
    ensures
      var p := Shown(entries);
      Shown(entries + [e]) ==
      match e
      case CommonPrefix(prefix) => p.(commonPrefixes := p.commonPrefixes + [prefix])
      case ObjectVersion(info) =>
        if info.isDeleteMarker then p.(deleteMarkers := p.deleteMarkers + [info]) else p.(versions := p.versions + [info])
  {
    assert (entries + [e])[..|entries|] == entries;
    assert Live(entries) + [] == Live(entries);
    assert DeleteMarkers(entries) + [] == DeleteMarkers(entries);
    assert CommonPrefixes(entries) + [] == CommonPrefixes(entries);
  }

  /** What a page in progress holds: the first entries of the listing, with the
      last of them as its marker; `later` are the entries still to come. */
  ghost predicate Paged(t: Table, r: Request, entries: seq<Entry>, later: seq<Entry>,
                        out: Page, count: nat, lastKey: Bytes, lastVersionId: Bytes)
  {
    && Entries(t, r) == entries + later
    && out == Shown(entries) && count == |entries| <= Limit(r)
    && lastKey == (if entries == [] then "" else EntryKey(entries[|entries| - 1]))
    && lastVersionId == (if entries == [] then "" else EntryVersionId(entries[|entries| - 1]))
  }

  lemma PageFull(t: Table, r: Request, entries: seq<Entry>, later: seq<Entry>,
                 out: Page, count: nat, lastKey: Bytes, lastVersionId: Bytes)
    requires Paged(t, r, entries, later, out, count, lastKey, lastVersionId)
    requires later != [] && count >= Limit(r)
    ensures out.(isTruncated := true, nextKeyMarker := lastKey, nextVersionIdMarker := lastVersionId) == PageOf(t, r)
  {
    L.TakeFirst(entries, later);
    var all := Entries(t, r);
    assert |all| > Limit(r) && all[..Limit(r)] == entries && all[Limit(r) - 1] == entries[|entries| - 1];
  }

  lemma PageNext(t: Table, r: Request, entries: seq<Entry>, e: Entry, later: seq<Entry>,
                 out: Page, count: nat, lastKey: Bytes, lastVersionId: Bytes)
    requires Paged(t, r, entries, [e] + later, out, count, lastKey, lastVersionId) && count < Limit(r)
    ensures
      var out' :=
        match e
        case CommonPrefix(prefix) => out.(commonPrefixes := out.commonPrefixes + [prefix])
        case ObjectVersion(info) =>
          if info.isDeleteMarker then
            out.(deleteMarkers := out.deleteMarkers + [info])
          else
            out.(versions := out.versions + [info]);
      Paged(t, r, entries + [e], later, out', count + 1, EntryKey(e), EntryVersionId(e))
  {
    ShownSnoc(entries, e);
    Concat(entries, [e], later);
  }

  lemma WrapNext(versions: seq<ObjectInfo>, i: nat, later: seq<Entry>)
    requires i < |versions|
    ensures Wrap(versions[i..]) + later == [ObjectVersion(versions[i])] + (Wrap(versions[i + 1..]) + later)
  {
    assert Wrap(versions[i..]) == [ObjectVersion(versions[i])] + Wrap(versions[i + 1..]);
    Concat([ObjectVersion(versions[i])], Wrap(versions[i + 1..]), later);
  }

  /** Lists one key's versions while the page has room. */
  method EmitVersions(t: Table, r: Request, versions: seq<ObjectInfo>, out0: Page, count0: nat, key0: Bytes, id0: Bytes,
                      ghost entries0: seq<Entry>, ghost later: seq<Entry>)
    returns (out: Page, count: nat, lastKey: Bytes, lastVersionId: Bytes, full: bool, ghost entries: seq<Entry>)
    requires Paged(t, r, entries0, Wrap(versions) + later, out0, count0, key0, id0)
    ensures full ==> out == PageOf(t, r)
    ensures !full ==> Paged(t, r, entries, later, out, count, lastKey, lastVersionId)
  {
    out, count, lastKey, lastVersionId, full, entries := out0, count0, key0, id0, false, entries0;
    var maxKeys := if r.maxKeys <= 0 then L.DEFAULT_MAX_KEYS else r.maxKeys;
    for i := 0 to |versions|
      invariant !full && Paged(t, r, entries, Wrap(versions[i..]) + later, out, count, lastKey, lastVersionId)
    {
      var info := versions[i];
      WrapNext(versions, i, later);
      if count >= maxKeys {
        PageFull(t, r, entries, Wrap(versions[i..]) + later, out, count, lastKey, lastVersionId);
        out := out.(isTruncated := true, nextKeyMarker := lastKey, nextVersionIdMarker := lastVersionId);
        full := true;
        return;
      }
      PageNext(t, r, entries, ObjectVersion(info), Wrap(versions[i + 1..]) + later, out, count, lastKey, lastVersionId);
      if info.isDeleteMarker {
        out := out.(deleteMarkers := out.deleteMarkers + [info]);
      } else {
        out := out.(versions := out.versions + [info]);
      }
      lastKey, lastVersionId, count := info.key, MarkerVersionId(info.versionId), count + 1;
      entries := entries + [ObjectVersion(info)];
    }
    assert Wrap(versions[|versions|..]) + later == later;
  }

  lemma NothingRemains(t: Table, r: Request, rest: set<Bytes>)
    requires Consistent(t) && L.CleanTable(t) && Ahead(t, r, rest)
    requires rest == {} || !HasPrefix(ObjectKeyOf(First(rest)), r.prefix)
    ensures Remaining(t, r, rest) == []
  {
    forall x | x in Keys(t, r) && x in rest
      ensures false
    {
      var raw := First(rest);
      assert CleanKey(Pointer(x).key);
      KeyOfRaw(Pointer(x));
      NoNulInPrefixOf(x, r.prefix);
      if raw != x {
        KeysInOrder(raw, x);
        if ObjectKeyOf(raw) != x {
          PrefixBlockEnds(r.prefix, ObjectKeyOf(raw), x);
        }
      }
    }
    assert Keys(t, r) * rest == {};
  }

  lemma PageEnds(t: Table, r: Request, entries: seq<Entry>, out: Page, count: nat, lastKey: Bytes, lastVersionId: Bytes)
    requires Paged(t, r, entries, [], out, count, lastKey, lastVersionId)
    ensures out == PageOf(t, r)
  {
    assert entries + [] == entries;
  }

  lemma PageStarts(t: Table, r: Request, start: Bytes)
    requires Consistent(t) && L.CleanTable(t) && NUL !in r.keyMarker
    requires start == L.AdvanceToken(r.prefix, ResumeKey(r))
    ensures
      var rest := L.Seek(L.RawKeys(t), start);
      Ahead(t, r, rest) && Paged(t, r, [], Remaining(t, r, rest), Page([], [], [], false, "", ""), 0, "", "")
  {
    var rest := L.Seek(L.RawKeys(t), start);
    ScanStarts(t, r, start);
    assert Keys(t, r) * rest == Keys(t, r);
    assert [] + Entries(t, r) == Entries(t, r);
  }

  lemma AtKey(t: Table, r: Request, rest: set<Bytes>, raw: Bytes)
    requires Consistent(t) && L.CleanTable(t) && Ahead(t, r, rest)
    requires raw in rest && (forall x :: x in rest ==> Le(raw, x)) && HasPrefix(ObjectKeyOf(raw), r.prefix)
    ensures raw == ObjectKeyOf(raw) && Pointer(raw) in t && RolledUp(r.prefix, r.delimiter, raw) == L.Rolled(r.prefix, r.delimiter, NameOf(r.prefix, r.delimiter, raw))
    ensures !RolledUp(r.prefix, r.delimiter, raw) ==> NameOf(r.prefix, r.delimiter, raw) == raw
    ensures Ahead(t, r, Onward(t, r, rest, raw)) && |Onward(t, r, rest, raw)| < |rest|
    ensures Remaining(t, r, rest) == Expand(t, r, NameOf(r.prefix, r.delimiter, raw)) + Remaining(t, r, Onward(t, r, rest, raw))
  {
    AtPointer(t, r, rest, raw);
    OnwardIsAhead(t, r, rest, raw);
    L.SmallerSet(Onward(t, r, rest, raw), rest);
    TakeName(t, r, rest, raw);
    L.SameName(r.prefix, r.delimiter, raw);
    NameIsListedUnderItself(r.prefix, r.delimiter, raw);
  }

  ghost predicate Scanning(t: Table, r: Request, rest: set<Bytes>, entries: seq<Entry>,
                           out: Page, count: nat, lastKey: Bytes, lastVersionId: Bytes)
  {
    Ahead(t, r, rest) && Paged(t, r, entries, Remaining(t, r, rest), out, count, lastKey, lastVersionId)
  }

  /** At a key that a common prefix stands for: the page is full, or takes the prefix
      and moves on. */
  lemma AtPrefix(t: Table, r: Request, rest: set<Bytes>, raw: Bytes, entries: seq<Entry>,
                 out: Page, count: nat, lastKey: Bytes, lastVersionId: Bytes)
    requires Consistent(t) && L.CleanTable(t) && Ahead(t, r, rest)
    requires raw in rest && (forall x :: x in rest ==> Le(raw, x)) && HasPrefix(raw, r.prefix) && raw == ObjectKeyOf(raw)
    requires Pointer(raw) in t && RolledUp(r.prefix, r.delimiter, raw)
    requires Paged(t, r, entries, Remaining(t, r, rest), out, count, lastKey, lastVersionId)
    ensures Ahead(t, r, Onward(t, r, rest, raw)) && |Onward(t, r, rest, raw)| < |rest|
    ensures
      var name := NameOf(r.prefix, r.delimiter, raw);
      if count >= Limit(r) then
        out.(isTruncated := true, nextKeyMarker := lastKey, nextVersionIdMarker := lastVersionId) == PageOf(t, r)
      else
        Paged(t, r, entries + [CommonPrefix(name)], Remaining(t, r, Onward(t, r, rest, raw)),
              out.(commonPrefixes := out.commonPrefixes + [name]), count + 1, name, "")
  {
    AtKey(t, r, rest, raw);
    var name, later := NameOf(r.prefix, r.delimiter, raw), Remaining(t, r, Onward(t, r, rest, raw));
    if count >= Limit(r) {
      PageFull(t, r, entries, [CommonPrefix(name)] + later, out, count, lastKey, lastVersionId);
    } else {
      PageNext(t, r, entries, CommonPrefix(name), later, out, count, lastKey, lastVersionId);
    }
  }

  /** At a key that is listed version by version: what its versions are, and what
      comes after them. */
  lemma AtVersions(t: Table, r: Request, rest: set<Bytes>, raw: Bytes, keyVersions: seq<ObjectInfo>, next: set<Bytes>)
    requires Consistent(t) && L.CleanTable(t) && Ahead(t, r, rest)
    requires raw in rest && (forall x :: x in rest ==> Le(raw, x)) && HasPrefix(raw, r.prefix) && raw == ObjectKeyOf(raw)
    requires !RolledUp(r.prefix, r.delimiter, raw) && next == rest - Group(rest, raw)
    requires keyVersions == if raw == r.keyMarker && !MarkerIsPrefix(r)
                            then VersionsAfterMarker(Versions(t, raw), r.versionIdMarker) else Versions(t, raw)
    ensures Ahead(t, r, next) && |next| < |rest|
    ensures Remaining(t, r, rest) == Wrap(keyVersions) + Remaining(t, r, next)
  {
    AtKey(t, r, rest, raw);
  }

  /** A page holds at most as many versions, delete markers and common prefixes as
      asked for, 1000 if the request sets no positive limit, and just as many if it is
      truncated. */
  method ListObjectVersions(t: Table, r: Request) returns (out: Page)
    requires Consistent(t) && L.CleanTable(t) && NUL !in r.keyMarker
    ensures out == PageOf(t, r)
    ensures |out.versions| + |out.deleteMarkers| + |out.commonPrefixes| <= if r.maxKeys > 0 then r.maxKeys else 1000
    ensures out.isTruncated ==>
              |out.versions| + |out.deleteMarkers| + |out.commonPrefixes| == if r.maxKeys > 0 then r.maxKeys else 1000
    ensures forall info :: info in out.versions ==> !info.isDeleteMarker
    ensures forall info :: info in out.deleteMarkers ==> info.isDeleteMarker
  {
    var start := r.prefix;
    if r.keyMarker != "" {
      var resume := r.keyMarker;
      if r.delimiter != "" && HasSuffix(r.keyMarker, r.delimiter) {
        resume := resume + [MAX_BYTE];
      }
      start := L.AdvanceToken(start, resume);
    }
    StartOfScan(r, start);
    out := ScanVersions(t, r, start);
    ghost var shown := if |Entries(t, r)| <= Limit(r) then Entries(t, r) else Entries(t, r)[..Limit(r)];
    EntryCount(shown);
    ShownApart(shown);
  }

  /** A page shows each version among the versions, each delete marker among the
      delete markers and each common prefix among the prefixes. */
  lemma {:induction false} ShownApart(entries: seq<Entry>)
    ensures forall info :: info in Live(entries) <==> ObjectVersion(info) in entries && !info.isDeleteMarker
    ensures forall info :: info in DeleteMarkers(entries) <==> ObjectVersion(info) in entries && info.isDeleteMarker
    ensures forall prefix :: prefix in CommonPrefixes(entries) <==> CommonPrefix(prefix) in entries
  {
    if entries != [] {
      var front, last := entries[..|entries| - 1], entries[|entries| - 1];
      ShownApart(front);
      assert forall e :: e in entries <==> e in front || e == last;
    }
  }

  lemma {:induction false} EntryCount(entries: seq<Entry>)
    ensures |Live(entries)| + |DeleteMarkers(entries)| + |CommonPrefixes(entries)| == |entries|
  {
    if entries != [] {
      EntryCount(entries[..|entries| - 1]);
    }
  }

  /** The scan from the first raw key that can be listed. */
  method ScanVersions(t: Table, r: Request, start: Bytes) returns (out: Page)
    requires Consistent(t) && L.CleanTable(t) && NUL !in r.keyMarker && start == L.AdvanceToken(r.prefix, ResumeKey(r))
    ensures out == PageOf(t, r)
  {
    out := Page([], [], [], false, "", "");
    var count: nat, lastKey, lastVersionId := 0, "", "";
    ghost var entries: seq<Entry> := [];
    var rest := L.Seek(L.RawKeys(t), start);
    PageStarts(t, r, start);
    while rest != {}
      invariant Scanning(t, r, rest, entries, out, count, lastKey, lastVersionId)
      decreases |rest|
    {
      var k := First(rest);
      var objectKey := ObjectKeyOf(k);
      if !HasPrefix(objectKey, r.prefix) {
        break;
      }
      AtPointer(t, r, rest, k);
      if RolledUp(r.prefix, r.delimiter, objectKey) {
        var dirPrefix := NameOf(r.prefix, r.delimiter, objectKey);
        AtPrefix(t, r, rest, k, entries, out, count, lastKey, lastVersionId);
        if count >= Limit(r) {
          out := out.(isTruncated := true, nextKeyMarker := lastKey, nextVersionIdMarker := lastVersionId);
          return;
        }
        out := out.(commonPrefixes := out.commonPrefixes + [dirPrefix]);
        lastKey, lastVersionId, count := dirPrefix, "", count + 1;
        rest := L.Seek(L.RawKeys(t), dirPrefix + [MAX_BYTE]);
        entries := entries + [CommonPrefix(dirPrefix)];
        continue;
      }
      var keyVersions, next := GatherVersions(t, r, rest, objectKey);
      keyVersions := NewestFirst(keyVersions);
      if objectKey == r.keyMarker && !MarkerIsPrefix(r) {
        keyVersions := VersionsAfterMarker(keyVersions, r.versionIdMarker);
      }
      AtVersions(t, r, rest, k, keyVersions, next);
      var full;
      out, count, lastKey, lastVersionId, full, entries :=
        EmitVersions(t, r, keyVersions, out, count, lastKey, lastVersionId, entries, Remaining(t, r, next));
      if full {
        return;
      }
      rest := next;
    }
    NothingRemains(t, r, rest);
    PageEnds(t, r, entries, out, count, lastKey, lastVersionId);
  }

  lemma StartOfScan(r: Request, start: Bytes)
    requires start == if r.keyMarker != "" then L.AdvanceToken(r.prefix, ResumeKey(r)) else r.prefix
    ensures start == L.AdvanceToken(r.prefix, ResumeKey(r))
  {
  }
}
