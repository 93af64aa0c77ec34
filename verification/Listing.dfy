/** Object listings: a skip-scan over pointers interleaved with version records,
    and what a client collects by following continuation tokens. */
module Listing {
  import opened ByteOrder
  import opened Records
  import opened RollUp

  datatype Request = Request(prefix: Bytes, delimiter: Bytes, startAfter: Bytes, continuationToken: Bytes, maxKeys: int)

  datatype Page = Page(
    objects: seq<ObjectInfo>,
    commonPrefixes: seq<Bytes>,
    isTruncated: bool,
    nextContinuationToken: Bytes,
    keyCount: nat)

  const DEFAULT_MAX_KEYS := 1000

  // ------------------------------------------------------------- the database

  /** The raw key of a record, the constant bucket prefix dropped. */
  function RawKey(rk: RecordKey): Bytes {
    match rk
    case Pointer(key) => key
    case Version(key, versionId) => key + [NUL] + versionId
  }

  function ParseRaw(raw: Bytes): RecordKey {
    match Index(raw, [NUL])
    case None => Pointer(raw)
    case Some(i) => Version(raw[..i], raw[i + 1..])
  }

  /** Stored keys are not empty and hold neither NUL nor 0xff. */
  ghost predicate CleanTable(t: Table) {
    forall rk :: rk in t ==> rk.key != "" && CleanKey(rk.key)
  }

  function RawKeys(t: Table): (raws: set<Bytes>)
    ensures forall raw :: raw in raws <==> exists rk :: rk in t && RawKey(rk) == raw
  {
    set rk | rk in t.Keys :: RawKey(rk)
  }

  lemma ParseRawKey(rk: RecordKey)
    requires CleanKey(rk.key)
    ensures ParseRaw(RawKey(rk)) == rk
    ensures rk.Version? <==> NUL in RawKey(rk)
  {
    var raw := RawKey(rk);
    assert forall i :: OccursAt(raw, [NUL], i) ==> raw[i] == NUL by {
      forall i | OccursAt(raw, [NUL], i)
        ensures raw[i] == NUL
      {
        assert raw[i] == raw[i..i + 1][0];
      }
    }
    assert forall i :: 0 <= i < |rk.key| ==> raw[i] == rk.key[i];
    if rk.Version? {
      assert raw[|rk.key|] == NUL;
      assert raw[|rk.key|..|rk.key| + 1] == [NUL];
      assert OccursAt(raw, [NUL], |rk.key|);
      assert raw[..|rk.key|] == rk.key && raw[|rk.key| + 1..] == rk.versionId;
    }
  }

  /** Where a cursor stands after seeking: at the first of the keys ahead of it. */
  function Seek(raws: set<Bytes>, to: Bytes): set<Bytes> {
    set raw | raw in raws && Le(to, raw)
  }

  // ------------------------------------------------------------ specification

  function Marker(r: Request): Bytes {
    if r.continuationToken != "" then r.continuationToken else r.startAfter
  }

  function Limit(r: Request): (n: nat)
    ensures n > 0
  {
    if r.maxKeys <= 0 then DEFAULT_MAX_KEYS else r.maxKeys
  }

  predicate EndsInDelimiter(delimiter: Bytes, name: Bytes) {
    delimiter != "" && HasSuffix(name, delimiter)
  }

  /** Whether a key lies after a marker; below a marker that ends in the delimiter
      nothing does. */
  predicate After(delimiter: Bytes, marker: Bytes, key: Bytes) {
    marker != "" ==> Lt(marker, key) && !(EndsInDelimiter(delimiter, marker) && HasPrefix(key, marker))
  }

  predicate Listable(t: Table, key: Bytes) {
    Pointer(key) in t && !t[Pointer(key)].isDeleteMarker
  }

  function Keys(t: Table, prefix: Bytes, delimiter: Bytes, marker: Bytes): (keys: set<Bytes>)
    ensures forall k :: k in keys <==> Listable(t, k) && HasPrefix(k, prefix) && After(delimiter, marker, k)
  {
    set k | k in PointerKeys(t) && Listable(t, k) && HasPrefix(k, prefix) && After(delimiter, marker, k)
  }

  /** The whole listing after a marker: filter, roll up, sort. */
  function Entries(t: Table, prefix: Bytes, delimiter: Bytes, marker: Bytes): seq<Bytes> {
    Ordered(Names(prefix, delimiter, Keys(t, prefix, delimiter, marker)))
  }

  predicate Rolled(prefix: Bytes, delimiter: Bytes, name: Bytes) {
    HasPrefix(name, prefix) && RolledUp(prefix, delimiter, name)
  }

  function Objects(t: Table, prefix: Bytes, delimiter: Bytes, names: seq<Bytes>): seq<ObjectInfo> {
    if names == [] then
      []
    else
      var name := names[|names| - 1];
      Objects(t, prefix, delimiter, names[..|names| - 1])
      + if !Rolled(prefix, delimiter, name) && Pointer(name) in t then [t[Pointer(name)]] else []
  }

  function Prefixes(prefix: Bytes, delimiter: Bytes, names: seq<Bytes>): seq<Bytes> {
    if names == [] then
      []
    else
      var name := names[|names| - 1];
      Prefixes(prefix, delimiter, names[..|names| - 1]) + if Rolled(prefix, delimiter, name) then [name] else []
  }

  function PageOf(t: Table, r: Request): Page {
    var all := Entries(t, r.prefix, r.delimiter, Marker(r));
    var n := if |all| < Limit(r) then |all| else Limit(r);
    Page(Objects(t, r.prefix, r.delimiter, all[..n]), Prefixes(r.prefix, r.delimiter, all[..n]),
         n < |all|, if n < |all| then all[n - 1] else "", n)
  }

  // ----------------------------------------------------------------- the scan

  function AdvanceToken(current: Bytes, candidate: Bytes): Bytes {
    if Lt(current, candidate) then candidate else current
  }

  lemma AdvanceTokenIsGreatest(current: Bytes, candidate: Bytes)
    ensures Le(current, AdvanceToken(current, candidate)) && Le(candidate, AdvanceToken(current, candidate))
  {
    LtTotal(current, candidate);
  }

  lemma LeTransitive(a: Bytes, b: Bytes, c: Bytes)
    requires Le(a, b) && Le(b, c)
    ensures Le(a, c)
  {
    if a != b {
      LeLtTransitive(a, b, c);
    }
  }

  /** `a + "\x00"` is the least string above `a`. */
  lemma {:induction false} NulIsNext(a: Bytes, s: Bytes)
    ensures Le(a + [NUL], s) <==> Lt(a, s)
  {
    if a == [] {
      assert a + [NUL] == [NUL];
      if s != [] {
        var b: Bytes := [NUL];
        assert a + [NUL] == b && b[1..] == [];
        assert s == [s[0]] + s[1..];
        assert s[0] == NUL || NUL < s[0];
        if s[0] == NUL && s[1..] == [] {
          assert s == b;
        } else {
          assert s[0] == NUL ==> Lt([], s[1..]);
          assert Lt(b, s);
        }
      }
    } else if s != [] {
      var b := a + [NUL];
      assert b[1..] == a[1..] + [NUL];
      NulIsNext(a[1..], s[1..]);
      if b[0] == s[0] && b[1..] == s[1..] {
        assert b == [b[0]] + b[1..] && s == [s[0]] + s[1..];
      }
    }
  }

  function AfterKey(delimiter: Bytes, marker: Bytes): Bytes {
    marker + if EndsInDelimiter(delimiter, marker) then [MAX_BYTE] else [NUL]
  }

  /** The keys after a marker are exactly those at or past its seek key. */
  lemma SeekFindsKeysAfter(delimiter: Bytes, marker: Bytes, key: Bytes)
    requires marker != "" && CleanKey(key)
    ensures After(delimiter, marker, key) <==> Le(AfterKey(delimiter, marker), key)
  {
    if EndsInDelimiter(delimiter, marker) {
      AtOrPast(marker, key);
    } else {
      NulIsNext(marker, key);
    }
  }

  /** What a scan knows of the raw keys ahead: they are the last of those stored,
      and none lies before the prefix or the marker. */
  ghost predicate Ahead(t: Table, prefix: Bytes, delimiter: Bytes, marker: Bytes, rest: set<Bytes>) {
    && rest <= RawKeys(t)
    && (forall x, y :: x in rest && y in RawKeys(t) && Lt(x, y) ==> y in rest)
    && (forall raw :: raw in rest ==> Le(prefix, raw))
    && (marker != "" ==> forall raw :: raw in rest ==> Le(AfterKey(delimiter, marker), raw))
  }

  lemma ScanStarts(t: Table, prefix: Bytes, delimiter: Bytes, marker: Bytes, seekKey: Bytes)
    requires CleanTable(t)
    requires seekKey == if marker == "" then prefix else AdvanceToken(prefix, AfterKey(delimiter, marker))
    ensures Ahead(t, prefix, delimiter, marker, Seek(RawKeys(t), seekKey))
    ensures Keys(t, prefix, delimiter, marker) <= Seek(RawKeys(t), seekKey)
  {
    var keys := Keys(t, prefix, delimiter, marker);
    if marker != "" {
      AdvanceTokenIsGreatest(prefix, AfterKey(delimiter, marker));
    }
    forall raw | raw in Seek(RawKeys(t), seekKey)
      ensures Le(prefix, raw) && (marker != "" ==> Le(AfterKey(delimiter, marker), raw))
    {
      LeTransitive(prefix, seekKey, raw);
      if marker != "" {
        LeTransitive(AfterKey(delimiter, marker), seekKey, raw);
      }
    }
    forall x, y | x in Seek(RawKeys(t), seekKey) && y in RawKeys(t) && Lt(x, y)
      ensures y in Seek(RawKeys(t), seekKey)
    {
      LeLtTransitive(seekKey, x, y);
    }
    forall k | k in keys
      ensures k in Seek(RawKeys(t), seekKey)
    {
      assert Pointer(k) in t && RawKey(Pointer(k)) == k;
      PrefixIsLe(k, prefix);
      if marker != "" {
        SeekFindsKeysAfter(delimiter, marker, k);
      }
    }
  }

  /** The pointer under the cursor belongs to the listing exactly if it passes the
      scan's tests. */
  lemma CursorKey(t: Table, prefix: Bytes, delimiter: Bytes, marker: Bytes, rest: set<Bytes>, raw: Bytes)
    requires CleanTable(t) && Ahead(t, prefix, delimiter, marker, rest) && raw in rest
    ensures NUL !in raw ==> ParseRaw(raw) == Pointer(raw) && Pointer(raw) in t && CleanKey(raw)
    ensures raw in Keys(t, prefix, delimiter, marker) <==>
            NUL !in raw && !(marker != "" && Le(raw, marker)) && HasPrefix(raw, prefix) && !t[Pointer(raw)].isDeleteMarker
  {
    var rk :| rk in t && RawKey(rk) == raw;
    ParseRawKey(rk);
    if raw in Keys(t, prefix, delimiter, marker) {
      ParseRawKey(Pointer(raw));
    }
    if marker != "" {
      LtTotal(raw, marker);
      if Lt(marker, raw) {
        LtAsymmetric(marker, raw);
      }
      if rk.Pointer? {
        SeekFindsKeysAfter(delimiter, marker, raw);
      }
    }
  }

  lemma PastPrefix(keys: set<Bytes>, rest: set<Bytes>, raw: Bytes, prefix: Bytes)
    requires raw in rest && Le(prefix, raw) && !HasPrefix(raw, prefix)
    requires forall x :: x in rest ==> Le(raw, x)
    requires forall k :: k in keys ==> HasPrefix(k, prefix)
    ensures keys * rest == {}
  {
    forall k | k in keys && k in rest
      ensures false
    {
      PrefixBlockEnds(prefix, raw, k);
    }
  }

  /** Stepping over a raw key leaves the rest ahead. */
  lemma StepOver(t: Table, prefix: Bytes, delimiter: Bytes, marker: Bytes, rest: set<Bytes>, raw: Bytes)
    requires Ahead(t, prefix, delimiter, marker, rest)
    requires raw in rest && forall x :: x in rest ==> Le(raw, x)
    ensures Ahead(t, prefix, delimiter, marker, rest - {raw})
  {
    forall x | x in rest && Lt(x, raw)
      ensures false
    {
      LtAsymmetric(x, raw);
    }
  }

  /** Where the cursor goes once the key under it is listed. */
  function Onward(t: Table, prefix: Bytes, delimiter: Bytes, rest: set<Bytes>, raw: Bytes): set<Bytes>
    requires HasPrefix(raw, prefix)
  {
    if RolledUp(prefix, delimiter, raw) then
      Seek(RawKeys(t), NameOf(prefix, delimiter, raw) + [MAX_BYTE])
    else
      rest - {raw}
  }

  lemma OnwardIsAhead(t: Table, prefix: Bytes, delimiter: Bytes, marker: Bytes, rest: set<Bytes>, raw: Bytes)
    requires Ahead(t, prefix, delimiter, marker, rest)
    requires raw in rest && HasPrefix(raw, prefix) && CleanKey(raw) && forall x :: x in rest ==> Le(raw, x)
    ensures Ahead(t, prefix, delimiter, marker, Onward(t, prefix, delimiter, rest, raw))
    ensures Onward(t, prefix, delimiter, rest, raw) < rest
  {
    if RolledUp(prefix, delimiter, raw) {
      var to := NameOf(prefix, delimiter, raw) + [MAX_BYTE];
      SkipPast(NameOf(prefix, delimiter, raw), raw);
      forall x | x in Seek(RawKeys(t), to)
        ensures Lt(raw, x)
      {
        LeLtTransitive(raw, to, x);
      }
      LtIrreflexive(raw);
      forall x, y | x in Seek(RawKeys(t), to) && y in RawKeys(t) && Lt(x, y)
        ensures y in Seek(RawKeys(t), to)
      {
        LeLtTransitive(to, x, y);
      }
    } else {
      StepOver(t, prefix, delimiter, marker, rest, raw);
    }
  }

  /** Moving on leaves out exactly the keys listed under the same name. */
  lemma OnwardKeys(t: Table, prefix: Bytes, delimiter: Bytes, marker: Bytes, rest: set<Bytes>, raw: Bytes, key: Bytes)
    requires Ahead(t, prefix, delimiter, marker, rest)
    requires raw in rest && HasPrefix(raw, prefix) && CleanKey(raw) && forall x :: x in rest ==> Le(raw, x)
    requires HasPrefix(key, prefix) && CleanKey(key) && key in RawKeys(t)
    ensures key in Onward(t, prefix, delimiter, rest, raw) <==>
            key in rest && NameOf(prefix, delimiter, key) != NameOf(prefix, delimiter, raw)
  {
    var name := NameOf(prefix, delimiter, raw);
    NameIsListedUnderItself(prefix, delimiter, raw);
    ListedUnder(prefix, delimiter, name, raw);
    ListedUnder(prefix, delimiter, name, key);
    OnwardIsAhead(t, prefix, delimiter, marker, rest, raw);
    if RolledUp(prefix, delimiter, raw) {
      SameName(prefix, delimiter, raw);
      AtOrPast(name, key);
      LtTotal(name, key);
      if key in rest {
        PrefixIsLe(raw, name);
        LeTransitive(name, raw, key);
        LtIrreflexive(name);
      }
    } else {
      SameName(prefix, delimiter, raw);
    }
  }

  lemma SameName(prefix: Bytes, delimiter: Bytes, key: Bytes)
    requires HasPrefix(key, prefix)
    ensures RolledUp(prefix, delimiter, key) <==> RolledUp(prefix, delimiter, NameOf(prefix, delimiter, key))
  {
    var name := NameOf(prefix, delimiter, key);
    NameIsListedUnderItself(prefix, delimiter, key);
    if RolledUp(prefix, delimiter, name) {
      assert name[|prefix|..] == key[|prefix|..][..|name| - |prefix|];
      SameFirstOccurrence(key[|prefix|..], name[|prefix|..], delimiter);
    }
  }

  /** Listing the key under the cursor and moving on takes the first remaining entry
      of the listing and leaves the others. */
  lemma TakeEntry(t: Table, prefix: Bytes, delimiter: Bytes, marker: Bytes, rest: set<Bytes>, raw: Bytes)
    requires CleanTable(t) && Ahead(t, prefix, delimiter, marker, rest)
    requires raw in rest && forall x :: x in rest ==> Le(raw, x)
    requires raw in Keys(t, prefix, delimiter, marker)
    ensures Remaining(t, prefix, delimiter, marker, rest)
         == [NameOf(prefix, delimiter, raw)] + Remaining(t, prefix, delimiter, marker, Onward(t, prefix, delimiter, rest, raw))
  {
    var keys, next := Keys(t, prefix, delimiter, marker), Onward(t, prefix, delimiter, rest, raw);
    assert CleanKey(Pointer(raw).key);
    forall k | k in keys
      ensures k in next <==> k in rest && NameOf(prefix, delimiter, k) != NameOf(prefix, delimiter, raw)
    {
      assert CleanKey(Pointer(k).key) && RawKey(Pointer(k)) == k;
      OnwardKeys(t, prefix, delimiter, marker, rest, raw, k);
    }
    NextName(prefix, delimiter, keys * rest, keys * next, raw);
  }

  /** The entries a scan has still to list. */
  function Remaining(t: Table, prefix: Bytes, delimiter: Bytes, marker: Bytes, rest: set<Bytes>): seq<Bytes> {
    Ordered(Names(prefix, delimiter, Keys(t, prefix, delimiter, marker) * rest))
  }

  lemma ListSnoc(t: Table, prefix: Bytes, delimiter: Bytes, names: seq<Bytes>, name: Bytes)
    ensures Objects(t, prefix, delimiter, names + [name]) == Objects(t, prefix, delimiter, names)
         + if !Rolled(prefix, delimiter, name) && Pointer(name) in t then [t[Pointer(name)]] else []
    ensures Prefixes(prefix, delimiter, names + [name]) == Prefixes(prefix, delimiter, names)
         + if Rolled(prefix, delimiter, name) then [name] else []
  {
    assert (names + [name])[..|names|] == names;
  }

  lemma RolledNamesAreListed(prefix: Bytes, delimiter: Bytes, names: seq<Bytes>)
    ensures forall n :: n in Prefixes(prefix, delimiter, names) <==> n in names && Rolled(prefix, delimiter, n)
  {
  }

  /** In an ascending listing the entry after `names` is new and sorts last. */
  lemma NextIsGreatest(names: seq<Bytes>, name: Bytes, more: seq<Bytes>)
    requires Ascending(names + [name] + more)
    ensures name !in names
    ensures names != [] ==> Lt(names[|names| - 1], name)
  {
    var all := names + [name] + more;
    assert all[|names|] == name;
    forall i | 0 <= i < |names|
      ensures names[i] != name
    {
      assert all[i] == names[i];
      LtAsymmetric(all[i], all[|names|]);
    }
    if names != [] {
      assert all[|names| - 1] == names[|names| - 1];
    }
  }

  /** What a scan has produced: `names` are the first entries of the listing, and
      those still ahead are the others. */
  ghost predicate Scanned(t: Table, r: Request, rest: set<Bytes>, names: seq<Bytes>,
                          objects: seq<ObjectInfo>, commonPrefixes: seq<Bytes>, nextToken: Bytes)
  {
    && Ahead(t, r.prefix, r.delimiter, Marker(r), rest)
    && Entries(t, r.prefix, r.delimiter, Marker(r)) == names + Remaining(t, r.prefix, r.delimiter, Marker(r), rest)
    && objects == Objects(t, r.prefix, r.delimiter, names)
    && commonPrefixes == Prefixes(r.prefix, r.delimiter, names)
    && |objects| + |commonPrefixes| == |names|
    && nextToken == if names == [] then "" else names[|names| - 1]
  }

  lemma ScanSkips(t: Table, r: Request, rest: set<Bytes>, raw: Bytes, names: seq<Bytes>,
                  objects: seq<ObjectInfo>, commonPrefixes: seq<Bytes>, nextToken: Bytes)
    requires Scanned(t, r, rest, names, objects, commonPrefixes, nextToken)
    requires raw in rest && (forall x :: x in rest ==> Le(raw, x)) && raw !in Keys(t, r.prefix, r.delimiter, Marker(r))
    ensures |rest - {raw}| < |rest|
    ensures Scanned(t, r, rest - {raw}, names, objects, commonPrefixes, nextToken)
  {
    var keys := Keys(t, r.prefix, r.delimiter, Marker(r));
    StepOver(t, r.prefix, r.delimiter, Marker(r), rest, raw);
    assert keys * (rest - {raw}) == keys * rest;
  }

  lemma ScanTakes(t: Table, r: Request, rest: set<Bytes>, raw: Bytes, names: seq<Bytes>,
                  objects: seq<ObjectInfo>, commonPrefixes: seq<Bytes>, nextToken: Bytes)
    requires CleanTable(t)
    requires Scanned(t, r, rest, names, objects, commonPrefixes, nextToken)
    requires raw in rest && (forall x :: x in rest ==> Le(raw, x)) && raw in Keys(t, r.prefix, r.delimiter, Marker(r))
    ensures
      var name := NameOf(r.prefix, r.delimiter, raw);
      var rolled := RolledUp(r.prefix, r.delimiter, raw);
      && |names| < |Entries(t, r.prefix, r.delimiter, Marker(r))|
      && (rolled ==> name !in commonPrefixes)
      && |Onward(t, r.prefix, r.delimiter, rest, raw)| < |rest|
      && Scanned(t, r, Onward(t, r.prefix, r.delimiter, rest, raw), names + [name],
                 if rolled then objects else objects + [t[Pointer(raw)]],
                 if rolled then commonPrefixes + [name] else commonPrefixes, AdvanceToken(nextToken, name))
  {
    var name, next := NameOf(r.prefix, r.delimiter, raw), Onward(t, r.prefix, r.delimiter, rest, raw);
    var more := Remaining(t, r.prefix, r.delimiter, Marker(r), next);
    assert CleanKey(Pointer(raw).key);
    TakeEntry(t, r.prefix, r.delimiter, Marker(r), rest, raw);
    OnwardIsAhead(t, r.prefix, r.delimiter, Marker(r), rest, raw);
    ListSnoc(t, r.prefix, r.delimiter, names, name);
    SameName(r.prefix, r.delimiter, raw);
    NameIsListedUnderItself(r.prefix, r.delimiter, raw);
    Concat(names, [name], more);
    NextIsGreatest(names, name, more);
    RolledNamesAreListed(r.prefix, r.delimiter, names);
    EntriesAreNotEmpty(t, r.prefix, r.delimiter, Marker(r), raw);
    SmallerSet(next, rest);
  }

  /** The same for a key that is rolled up, and for one that is not. */
  lemma ScanTakesPrefix(t: Table, r: Request, rest: set<Bytes>, raw: Bytes, names: seq<Bytes>,
                        objects: seq<ObjectInfo>, commonPrefixes: seq<Bytes>, nextToken: Bytes)
    requires CleanTable(t)
    requires Scanned(t, r, rest, names, objects, commonPrefixes, nextToken)
    requires raw in rest && (forall x :: x in rest ==> Le(raw, x)) && raw in Keys(t, r.prefix, r.delimiter, Marker(r))
    requires RolledUp(r.prefix, r.delimiter, raw)
    ensures
      var name := NameOf(r.prefix, r.delimiter, raw);
      var next := Seek(RawKeys(t), name + [MAX_BYTE]);
      && |names| < |Entries(t, r.prefix, r.delimiter, Marker(r))|
      && name !in commonPrefixes && |next| < |rest|
      && Scanned(t, r, next, names + [name], objects, commonPrefixes + [name], AdvanceToken(nextToken, name))
  {
    ScanTakes(t, r, rest, raw, names, objects, commonPrefixes, nextToken);
  }

  lemma ScanTakesObject(t: Table, r: Request, rest: set<Bytes>, raw: Bytes, names: seq<Bytes>,
                        objects: seq<ObjectInfo>, commonPrefixes: seq<Bytes>, nextToken: Bytes)
    requires Consistent(t) && CleanTable(t)
    requires Scanned(t, r, rest, names, objects, commonPrefixes, nextToken)
    requires raw in rest && (forall x :: x in rest ==> Le(raw, x)) && raw in Keys(t, r.prefix, r.delimiter, Marker(r))
    requires !RolledUp(r.prefix, r.delimiter, raw)
    ensures
      var obj := t[Pointer(raw)];
      && obj.key == raw && |rest - {raw}| < |rest|
      && |names| < |Entries(t, r.prefix, r.delimiter, Marker(r))|
      && Scanned(t, r, rest - {raw}, names + [raw], objects + [obj], commonPrefixes, AdvanceToken(nextToken, raw))
  {
    ScanTakes(t, r, rest, raw, names, objects, commonPrefixes, nextToken);
    assert RecordOk(t, Pointer(raw));
  }

  lemma EntriesAreNotEmpty(t: Table, prefix: Bytes, delimiter: Bytes, marker: Bytes, key: Bytes)
    requires CleanTable(t) && key in Keys(t, prefix, delimiter, marker)
    ensures NameOf(prefix, delimiter, key) != ""
  {
    assert Pointer(key).key != "";
    NameIsListedUnderItself(prefix, delimiter, key);
  }

  /** A page that stopped scanning, full or at the end, is the page asked for. */
  lemma ScanEnds(t: Table, r: Request, rest: set<Bytes>, names: seq<Bytes>,
                 objects: seq<ObjectInfo>, commonPrefixes: seq<Bytes>, nextToken: Bytes, isTruncated: bool)
    requires Scanned(t, r, rest, names, objects, commonPrefixes, nextToken)
    requires |names| <= Limit(r)
    requires if isTruncated then |names| == Limit(r) < |Entries(t, r.prefix, r.delimiter, Marker(r))|
             else Keys(t, r.prefix, r.delimiter, Marker(r)) * rest == {}
    ensures Page(objects, commonPrefixes, isTruncated, if isTruncated then nextToken else "", |names|) == PageOf(t, r)
  {
    var more := Remaining(t, r.prefix, r.delimiter, Marker(r), rest);
    TakeFirst(names, more);
    if !isTruncated {
      NothingAhead(t, r, rest);
      assert names + [] == names;
    }
    PageOfNames(t, r, names, Entries(t, r.prefix, r.delimiter, Marker(r)), isTruncated);
  }

  lemma NothingAhead(t: Table, r: Request, rest: set<Bytes>)
    requires Keys(t, r.prefix, r.delimiter, Marker(r)) * rest == {}
    ensures Remaining(t, r.prefix, r.delimiter, Marker(r), rest) == []
  {
    assert Names(r.prefix, r.delimiter, Keys(t, r.prefix, r.delimiter, Marker(r)) * rest) == {};
  }

  lemma PageOfNames(t: Table, r: Request, names: seq<Bytes>, all: seq<Bytes>, isTruncated: bool)
    requires all == Entries(t, r.prefix, r.delimiter, Marker(r)) && |names| <= |all| && all[..|names|] == names
    requires if isTruncated then |names| == Limit(r) < |all| else |names| == |all| <= Limit(r)
    ensures PageOf(t, r) ==
            Page(Objects(t, r.prefix, r.delimiter, names), Prefixes(r.prefix, r.delimiter, names), isTruncated,
                 if isTruncated then names[|names| - 1] else "", |names|)
  {
  }

  lemma TakeFirst<T>(a: seq<T>, b: seq<T>)
    ensures (a + b)[..|a|] == a
  {
  }

  lemma ScanBegins(t: Table, r: Request, seekKey: Bytes)
    requires CleanTable(t)
    requires seekKey == if Marker(r) == "" then r.prefix else AdvanceToken(r.prefix, AfterKey(r.delimiter, Marker(r)))
    ensures Scanned(t, r, Seek(RawKeys(t), seekKey), [], [], [], "")
  {
    var rest, keys := Seek(RawKeys(t), seekKey), Keys(t, r.prefix, r.delimiter, Marker(r));
    ScanStarts(t, r.prefix, r.delimiter, Marker(r), seekKey);
    assert keys * rest == keys;
    NothingBefore(Entries(t, r.prefix, r.delimiter, Marker(r)));
  }

  lemma NothingBefore<T>(s: seq<T>)
    ensures [] + s == s
  {
  }

  lemma EntryOfKey(t: Table, prefix: Bytes, delimiter: Bytes, marker: Bytes, entry: Bytes) returns (key: Bytes)
    requires CleanTable(t) && entry in Entries(t, prefix, delimiter, marker)
    ensures key in Keys(t, prefix, delimiter, marker) && NameOf(prefix, delimiter, key) == entry
    ensures entry != "" && HasPrefix(entry, prefix) && NameOf(prefix, delimiter, entry) == entry
  {
    key :| key in Keys(t, prefix, delimiter, marker) && NameOf(prefix, delimiter, key) == entry;
    EntriesAreNotEmpty(t, prefix, delimiter, marker, key);
    NameIsListedUnderItself(prefix, delimiter, key);
  }

  lemma {:induction false} EntryCount(t: Table, prefix: Bytes, delimiter: Bytes, names: seq<Bytes>)
    requires forall n :: n in names ==> Rolled(prefix, delimiter, n) || Pointer(n) in t
    ensures |Objects(t, prefix, delimiter, names)| + |Prefixes(prefix, delimiter, names)| == |names|
  {
    if names != [] {
      EntryCount(t, prefix, delimiter, names[..|names| - 1]);
    }
  }

  lemma EntriesAreListed(t: Table, prefix: Bytes, delimiter: Bytes, marker: Bytes)
    requires CleanTable(t)
    ensures forall n :: n in Entries(t, prefix, delimiter, marker) ==> Rolled(prefix, delimiter, n) || Pointer(n) in t
  {
    forall n | n in Entries(t, prefix, delimiter, marker)
      ensures Rolled(prefix, delimiter, n) || Pointer(n) in t
    {
      var key := EntryOfKey(t, prefix, delimiter, marker, n);
      NameIsListedUnderItself(prefix, delimiter, key);
    }
  }

  lemma PageSize(t: Table, r: Request)
    requires CleanTable(t)
    ensures
      var page := PageOf(t, r);
      var most := if r.maxKeys > 0 then r.maxKeys else 1000;
      && |page.objects| + |page.commonPrefixes| == page.keyCount <= most
      && (page.isTruncated ==> page.keyCount == most)
  {
    var all := Entries(t, r.prefix, r.delimiter, Marker(r));
    EntriesAreListed(t, r.prefix, r.delimiter, Marker(r));
    EntryCount(t, r.prefix, r.delimiter, all[..if |all| < Limit(r) then |all| else Limit(r)]);
  }

  /** A page holds at most as many objects and common prefixes as asked for, 1000 if
      the request sets no positive limit, and just as many if it is truncated. */
  method ListObjects(t: Table, r: Request) returns (page: Page)
    requires Consistent(t) && CleanTable(t)
    ensures page == PageOf(t, r)
    ensures |page.objects| + |page.commonPrefixes| == page.keyCount <= if r.maxKeys > 0 then r.maxKeys else 1000
    ensures page.isTruncated ==> page.keyCount == if r.maxKeys > 0 then r.maxKeys else 1000
  {
    var startAfter := r.startAfter;
    if r.continuationToken != "" {
      startAfter := r.continuationToken;
    }
    var seekKey := r.prefix;
    if startAfter != "" {
      var afterKey := startAfter + [NUL];
      if r.delimiter != "" && HasSuffix(startAfter, r.delimiter) {
        afterKey := startAfter + [MAX_BYTE];
      }
      seekKey := AdvanceToken(seekKey, afterKey);
    }
    page := ScanObjects(t, r, startAfter, seekKey);
    PageSize(t, r);
  }

  /** The scan from the first raw key that can be listed. */
  method ScanObjects(t: Table, r: Request, startAfter: Bytes, seekKey: Bytes) returns (page: Page)
    requires Consistent(t) && CleanTable(t) && startAfter == Marker(r)
    requires seekKey == if startAfter == "" then r.prefix else AdvanceToken(r.prefix, AfterKey(r.delimiter, startAfter))
    ensures page == PageOf(t, r)
  {
    var maxKeys := if r.maxKeys <= 0 then DEFAULT_MAX_KEYS else r.maxKeys;
    var objects, commonPrefixes, commonPrefixSet: set<Bytes> := [], [], {};
    var isTruncated, nextToken := false, "";
    var rest := Seek(RawKeys(t), seekKey);
    ghost var names: seq<Bytes> := [];
    ScanBegins(t, r, seekKey);
    while rest != {}
      invariant Scanned(t, r, rest, names, objects, commonPrefixes, nextToken)
      invariant !isTruncated && |names| <= maxKeys
      invariant forall n :: n in commonPrefixSet <==> n in commonPrefixes
      decreases |rest|
    {
      var k := First(rest);
      assert Ahead(t, r.prefix, r.delimiter, startAfter, rest);
      CursorKey(t, r.prefix, r.delimiter, startAfter, rest, k);
      if NUL in k || (startAfter != "" && Le(k, startAfter)) {
        ScanSkips(t, r, rest, k, names, objects, commonPrefixes, nextToken);
        rest := rest - {k};
        continue;
      }
      if !HasPrefix(k, r.prefix) {
        PastPrefix(Keys(t, r.prefix, r.delimiter, startAfter), rest, k, r.prefix);
        break;
      }
      var obj := t[ParseRaw(k)];
      if obj.isDeleteMarker {
        ScanSkips(t, r, rest, k, names, objects, commonPrefixes, nextToken);
        rest := rest - {k};
        continue;
      }
      if RolledUp(r.prefix, r.delimiter, k) {
        var dirPrefix := NameOf(r.prefix, r.delimiter, k);
        ScanTakesPrefix(t, r, rest, k, names, objects, commonPrefixes, nextToken);
        if dirPrefix !in commonPrefixSet {
          if |objects| + |commonPrefixes| >= maxKeys {
            isTruncated := true;
            break;
          }
          commonPrefixSet := commonPrefixSet + {dirPrefix};
          commonPrefixes := commonPrefixes + [dirPrefix];
          nextToken := AdvanceToken(nextToken, dirPrefix);
        }
        rest := Seek(RawKeys(t), dirPrefix + [MAX_BYTE]);
        names := names + [dirPrefix];
        continue;
      }
      ScanTakesObject(t, r, rest, k, names, objects, commonPrefixes, nextToken);
      if |objects| + |commonPrefixes| >= maxKeys {
        isTruncated := true;
        break;
      }
      objects := objects + [obj];
      nextToken := AdvanceToken(nextToken, obj.key);
      rest := rest - {k};
      names := names + [k];
    }
    ScanEnds(t, r, rest, names, objects, commonPrefixes, nextToken, isTruncated);
    if !isTruncated {
      nextToken := "";
    }
    page := Page(objects, commonPrefixes, isTruncated, nextToken, |objects| + |commonPrefixes|);
  }

  lemma SmallerSet(a: set<Bytes>, b: set<Bytes>)
    requires a < b
    ensures |a| < |b|
  {
    var x :| x in b && x !in a;
    assert a <= b - {x};
    assert b - {x} == a + (b - {x} - a);
  }
}
