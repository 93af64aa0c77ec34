/** What a client gets that follows version-listing markers, even when pages end in
    the middle of a key's versions. */
module VersionPages {
  import opened ByteOrder
  import opened Records
  import opened MetadataStores
  import opened RollUp
  import opened VersionListing
  import L = Listing
  import P = ListingPages

  // --------------------------------------------------- a key's versions and ids

  predicate DistinctIds(s: seq<ObjectInfo>) {
    forall i, j :: 0 <= i < j < |s| ==> MarkerVersionId(s[i].versionId) != MarkerVersionId(s[j].versionId)
  }

  /** What comes after a version of a list with distinct ids. */
  lemma {:induction false} AfterVersionAt(s: seq<ObjectInfo>, i: nat)
    requires DistinctIds(s) && i < |s|
    ensures VersionsAfterMarker(s, MarkerVersionId(s[i].versionId)) == s[i + 1..]
  {
    if i > 0 {
      AfterVersionAt(s[1..], i - 1);
      assert s[1..][i..] == s[i + 1..];
    }
  }

  lemma {:induction false} AfterMarkerIsSuffix(s: seq<ObjectInfo>, id: Bytes) returns (n: nat)
    ensures n <= |s| && VersionsAfterMarker(s, id) == s[n..]
  {
    if id == "" || s == [] {
      n := |s|;
    } else if MarkerVersionId(s[0].versionId) == id {
      n := 1;
    } else {
      n := AfterMarkerIsSuffix(s[1..], id);
      n := n + 1;
      assert s[1..][n - 1..] == s[n..];
    }
  }

  predicate NoneHasId(s: seq<ObjectInfo>, id: Bytes) {
    forall i :: 0 <= i < |s| ==> MarkerVersionId(s[i].versionId) != id
  }

  lemma {:induction false} InsertKeepsIds(info: ObjectInfo, s: seq<ObjectInfo>)
    requires DistinctIds(s) && NoneHasId(s, MarkerVersionId(info.versionId))
    ensures DistinctIds(Insert(info, s))
    ensures forall id :: NoneHasId(s, id) && MarkerVersionId(info.versionId) != id ==> NoneHasId(Insert(info, s), id)
  {
    if s != [] && s[0].modified > info.modified {
      InsertKeepsIds(info, s[1..]);
      assert NoneHasId(s[1..], MarkerVersionId(s[0].versionId));
      forall id | NoneHasId(s, id)
        ensures NoneHasId(s[1..], id)
      {
      }
    }
  }

  lemma {:induction false} SortingKeepsIds(s: seq<ObjectInfo>)
    requires DistinctIds(s)
    ensures DistinctIds(NewestFirst(s))
    ensures forall id :: NoneHasId(s, id) ==> NoneHasId(NewestFirst(s), id)
  {
    if s != [] {
      SortingKeepsIds(s[1..]);
      assert NoneHasId(s[1..], MarkerVersionId(s[0].versionId));
      InsertKeepsIds(s[0], NewestFirst(s[1..]));
      forall id | NoneHasId(s, id)
        ensures NoneHasId(s[1..], id)
      {
      }
    }
  }

  lemma {:induction false} InOrderDistinct(t: Table, key: Bytes, ids: set<Bytes>)
    requires Consistent(t) && forall v :: v in ids ==> Version(key, v) in t
    ensures DistinctIds(InOrder(t, key, ids))
    ensures forall i :: 0 <= i < |InOrder(t, key, ids)| ==> InOrder(t, key, ids)[i].versionId in ids
    decreases |ids|
  {
    if ids != {} {
      var v := First(ids);
      var rest := InOrder(t, key, ids - {v});
      InOrderDistinct(t, key, ids - {v});
      assert RecordOk(t, Version(key, v));
      forall i | 0 <= i < |rest|
        ensures MarkerVersionId(rest[i].versionId) != MarkerVersionId(v)
      {
        assert RecordOk(t, Version(key, rest[i].versionId));
      }
    }
  }

  lemma KeyVersionsDistinct(t: Table, key: Bytes)
    requires Consistent(t)
    ensures DistinctIds(KeyVersions(t, key))
  {
    if Pointer(key) in t {
      var current := t[Pointer(key)].versionId;
      var others := VersionIds(t, key) - {current};
      var rest := InOrder(t, key, others);
      assert RecordOk(t, Pointer(key));
      InOrderDistinct(t, key, others);
      forall i | 0 <= i < |rest|
        ensures MarkerVersionId(rest[i].versionId) != MarkerVersionId(current)
      {
        assert RecordOk(t, Version(key, rest[i].versionId));
      }
    }
  }

  /** The stored versions of a key have its name, and no two share an id. */
  lemma StoredVersions(t: Table, key: Bytes)
    requires Consistent(t)
    ensures forall info :: info in KeyVersions(t, key) ==> info.key == key
    ensures forall info :: info in Versions(t, key) ==> info.key == key
    ensures DistinctIds(Versions(t, key))
  {
    var s := KeyVersions(t, key);
    forall info | info in s
      ensures info.key == key
    {
      KeyVersionsAreStored(t, key, info);
      var rk: RecordKey :| rk.key == key && Primary(t, rk) && t[rk] == info;
      assert RecordOk(t, rk);
    }
    assert forall info :: info in Versions(t, key) <==> info in multiset(Versions(t, key));
    assert forall info :: info in s <==> info in multiset(s);
    KeyVersionsDistinct(t, key);
    SortingKeepsIds(s);
  }

  // ------------------------------------------------------------- cutting pages

  /** A key marker that ends in the delimiter hides every later entry at or below
      it. After a rolled-up prefix nothing is there; after a version, entries are lost. */
  predicate Hides(delimiter: Bytes, entries: seq<Entry>, n: nat)
    requires 0 < n < |entries|
  {
    L.EndsInDelimiter(delimiter, EntryKey(entries[n - 1])) && HasPrefix(EntryKey(entries[n]), EntryKey(entries[n - 1]))
  }

  /** No page of `n` entries ends on a version that hides the next entry. */
  predicate CleanCuts(delimiter: Bytes, entries: seq<Entry>, n: nat)
    requires n > 0
  {
    |entries| <= n || (!Hides(delimiter, entries, n) && CleanCuts(delimiter, entries[n..], n))
  }

  function SkipBelow(entries: seq<Entry>, n: nat, name: Bytes): (m: nat)
    requires n <= |entries|
    ensures n <= m <= |entries|
    ensures forall i :: n <= i < m ==> HasPrefix(EntryKey(entries[i]), name)
    ensures m < |entries| ==> !HasPrefix(EntryKey(entries[m]), name)
    decreases |entries| - n
  {
    if n < |entries| && HasPrefix(EntryKey(entries[n]), name) then SkipBelow(entries, n + 1, name) else n
  }

  function ResumeAt(delimiter: Bytes, entries: seq<Entry>, n: nat): (m: nat)
    requires 0 < n <= |entries|
    ensures n <= m <= |entries|
    ensures n < |entries| ==> (m == n <==> !Hides(delimiter, entries, n))
  {
    var name := EntryKey(entries[n - 1]);
    if L.EndsInDelimiter(delimiter, name) then SkipBelow(entries, n, name) else n
  }

  // ------------------------------------------------- the names after a marker

  function ResumedBy(r: Request, e: Entry): Request {
    r.(keyMarker := EntryKey(e), versionIdMarker := EntryVersionId(e))
  }

  function NamesOf(t: Table, r: Request): (names: seq<Bytes>)
    ensures Ascending(names)
  {
    Ordered(Names(r.prefix, r.delimiter, Keys(t, r)))
  }

  /** Whether a name is still to be listed after a marker. */
  predicate NameFrom(r: Request, marker: Bytes, name: Bytes) {
    if L.EndsInDelimiter(r.delimiter, marker) then L.After(r.delimiter, marker, name) else Le(marker, name)
  }

  lemma NameOfKey(t: Table, r: Request, name: Bytes) returns (key: Bytes)
    requires L.CleanTable(t) && name in NamesOf(t, r)
    ensures key in Keys(t, r) && NameOf(r.prefix, r.delimiter, key) == name
    ensures name != "" && HasPrefix(name, r.prefix) && NameOf(r.prefix, r.delimiter, name) == name
    ensures NUL !in name && (!RolledUp(r.prefix, r.delimiter, name) ==> key == name)
    ensures RolledUp(r.prefix, r.delimiter, name) ==> L.EndsInDelimiter(r.delimiter, name)
  {
    key :| key in Keys(t, r) && NameOf(r.prefix, r.delimiter, key) == name;
    assert Pointer(key).key != "" && CleanKey(Pointer(key).key);
    NameIsListedUnderItself(r.prefix, r.delimiter, key);
    NoNulInPrefixOf(key, name);
  }

  lemma NameFromByKey(t: Table, r: Request, marker: Bytes, key: Bytes)
    requires L.CleanTable(t) && marker in NamesOf(t, r) && HasPrefix(key, r.prefix)
    ensures FromMarker(r.(keyMarker := marker), key) <==> NameFrom(r, marker, NameOf(r.prefix, r.delimiter, key))
  {
    var _ := NameOfKey(t, r, marker);
    var name := NameOf(r.prefix, r.delimiter, key);
    if L.EndsInDelimiter(r.delimiter, marker) {
      P.AfterByName(r.prefix, r.delimiter, marker, key);
    } else {
      if Lt(marker, key) {
        NamesInOrder(r.prefix, r.delimiter, marker, key);
      }
      if Le(marker, name) {
        PrefixIsLe(key, name);
        L.LeTransitive(marker, name, key);
      }
    }
  }

  lemma StillFromMarker(t: Table, r: Request, marker: Bytes, key: Bytes)
    requires L.CleanTable(t) && marker in NamesOf(t, r) && HasPrefix(key, r.prefix)
    requires FromMarker(r.(keyMarker := marker), key)
    ensures FromMarker(r, key)
  {
    var from := NameOfKey(t, r, marker);
    if L.EndsInDelimiter(r.delimiter, marker) {
      P.LaterThanListed(r.prefix, r.delimiter, from, key);
    }
    assert Le(from, key);
    if MarkerIsPrefix(r) {
      LeLtTransitive(r.keyMarker, from, key);
      if HasPrefix(key, r.keyMarker) && from != key {
        PrefixBlockEnds(r.keyMarker, from, key);
      }
    } else {
      L.LeTransitive(r.keyMarker, from, key);
    }
  }

  /** Resuming at a listed name keeps exactly the names from there on. */
  lemma NamesResume(t: Table, r: Request, marker: Bytes, name: Bytes)
    requires L.CleanTable(t) && marker in NamesOf(t, r)
    ensures name in NamesOf(t, r.(keyMarker := marker)) <==> name in NamesOf(t, r) && NameFrom(r, marker, name)
  {
    var r' := r.(keyMarker := marker);
    if name in NamesOf(t, r') {
      var key := NameOfKey(t, r', name);
      NameFromByKey(t, r, marker, key);
      StillFromMarker(t, r, marker, key);
      assert key in Keys(t, r);
    }
    if name in NamesOf(t, r) && NameFrom(r, marker, name) {
      var key := NameOfKey(t, r, name);
      NameFromByKey(t, r, marker, key);
      assert key in Keys(t, r');
    }
  }

  /** The position in `names` at which a listing resumed at `names[i]` starts. */
  function NameResumeAt(r: Request, names: seq<Bytes>, i: nat): (j: nat)
    requires i < |names|
    ensures i <= j <= |names|
  {
    if L.EndsInDelimiter(r.delimiter, names[i]) then P.SkipBelow(names, i + 1, names[i]) else i
  }

  lemma NameFromIsSuffix(r: Request, names: seq<Bytes>, i: nat, k: nat)
    requires Ascending(names) && i < |names| && names[i] != "" && k < |names|
    ensures NameFrom(r, names[i], names[k]) <==> NameResumeAt(r, names, i) <= k
  {
    if L.EndsInDelimiter(r.delimiter, names[i]) {
      P.AfterIsSuffix(r.delimiter, names, i + 1, k);
    } else if k < i {
      LtAsymmetric(names[k], names[i]);
    }
  }

  lemma NamesAreSuffix(t: Table, r: Request, i: nat)
    requires L.CleanTable(t) && i < |NamesOf(t, r)|
    ensures
      var names := NamesOf(t, r);
      NamesOf(t, r.(keyMarker := names[i])) == names[NameResumeAt(r, names, i)..]
  {
    var names := NamesOf(t, r);
    var marker, j := names[i], NameResumeAt(r, names, i);
    var _ := NameOfKey(t, r, marker);
    var rest := NamesOf(t, r.(keyMarker := marker));
    forall name
      ensures name in rest <==> name in names[j..]
    {
      NamesResume(t, r, marker, name);
      P.InSuffix(names, j, name);
      forall k | 0 <= k < |names| && names[k] == name
        ensures NameFrom(r, marker, name) <==> j <= k
      {
        NameFromIsSuffix(r, names, i, k);
      }
    }
    P.SuffixAscends(names, j);
    AscendingUnique(rest, names[j..]);
  }

  // ------------------------------------------------------ entries name by name

  lemma {:induction false} ExpandConcat(t: Table, r: Request, a: seq<Bytes>, b: seq<Bytes>)
    ensures ExpandAll(t, r, a + b) == ExpandAll(t, r, a) + ExpandAll(t, r, b)
  {
    if a == [] {
      assert a + b == b;
      assert [] + ExpandAll(t, r, b) == ExpandAll(t, r, b);
    } else {
      assert (a + b)[1..] == a[1..] + b;
      ExpandConcat(t, r, a[1..], b);
      Concat(Expand(t, r, a[0]), ExpandAll(t, r, a[1..]), ExpandAll(t, r, b));
    }
  }

  /** Entries that all belong to one name. */
  predicate Keyed(entries: seq<Entry>, name: Bytes) {
    forall i :: 0 <= i < |entries| ==> EntryKey(entries[i]) == name
  }

  lemma WrapKeyed(s: seq<ObjectInfo>, n: nat, key: Bytes)
    requires n <= |s| && forall info :: info in s ==> info.key == key
    ensures Keyed(Wrap(s[n..]), key)
  {
    forall i | 0 <= i < |s| - n
      ensures EntryKey(Wrap(s[n..])[i]) == key
    {
      assert s[n..][i] == s[n + i] && s[n + i] in s;
    }
  }

  /** A name contributes the rest of its key's versions from some point on. */
  lemma ExpandIsSuffix(t: Table, r: Request, name: Bytes) returns (n: nat)
    requires !L.Rolled(r.prefix, r.delimiter, name)
    ensures n <= |Versions(t, name)| && Expand(t, r, name) == Wrap(Versions(t, name)[n..])
  {
    var s := Versions(t, name);
    if name == r.keyMarker && !MarkerIsPrefix(r) {
      n := AfterMarkerIsSuffix(s, r.versionIdMarker);
    } else {
      n := 0;
      assert s[0..] == s;
    }
  }

  lemma ExpandKeys(t: Table, r: Request, name: Bytes)
    requires Consistent(t)
    ensures Keyed(Expand(t, r, name), name)
  {
    if !L.Rolled(r.prefix, r.delimiter, name) {
      StoredVersions(t, name);
      var n := ExpandIsSuffix(t, r, name);
      WrapKeyed(Versions(t, name), n, name);
    }
  }

  lemma {:induction false} ExpandAllKeys(t: Table, r: Request, names: seq<Bytes>, prefix: Bytes, below: bool)
    requires Consistent(t)
    requires forall i :: 0 <= i < |names| ==> HasPrefix(names[i], prefix) == below
    ensures forall i :: 0 <= i < |ExpandAll(t, r, names)| ==> HasPrefix(EntryKey(ExpandAll(t, r, names)[i]), prefix) == below
  {
    if names != [] {
      ExpandKeys(t, r, names[0]);
      ExpandAllKeys(t, r, names[1..], prefix, below);
    }
  }

  /** Other markers change nothing for names that are neither's. */
  lemma {:induction false} ExpandAllSame(t: Table, r: Request, r': Request, names: seq<Bytes>)
    requires r'.prefix == r.prefix && r'.delimiter == r.delimiter
    requires forall i :: 0 <= i < |names| ==> (names[i] == r.keyMarker ==> MarkerIsPrefix(r))
    requires forall i :: 0 <= i < |names| ==> (names[i] == r'.keyMarker ==> MarkerIsPrefix(r'))
    ensures ExpandAll(t, r, names) == ExpandAll(t, r', names)
  {
    if names != [] {
      ExpandAllSame(t, r, r', names[1..]);
    }
  }

  function Flatten<T>(parts: seq<seq<T>>): seq<T> {
    if parts == [] then [] else parts[0] + Flatten(parts[1..])
  }

  function Parts(t: Table, r: Request, names: seq<Bytes>): (parts: seq<seq<Entry>>)
    ensures |parts| == |names| && forall i :: 0 <= i < |names| ==> parts[i] == Expand(t, r, names[i])
  {
    seq(|names|, i requires 0 <= i < |names| => Expand(t, r, names[i]))
  }

  lemma {:induction false} ExpandAllIsFlat(t: Table, r: Request, names: seq<Bytes>)
    ensures ExpandAll(t, r, names) == Flatten(Parts(t, r, names))
  {
    if names != [] {
      ExpandAllIsFlat(t, r, names[1..]);
      assert Parts(t, r, names)[1..] == Parts(t, r, names[1..]);
    }
  }

  /** The part an element of a flattened list belongs to, and where in it it is. */
  lemma {:induction false} LocateIn<T>(parts: seq<seq<T>>, n: nat) returns (i: nat, at: nat)
    requires n < |Flatten(parts)|
    ensures i < |parts| && at < |parts[i]|
    ensures Flatten(parts)[n] == parts[i][at]
    ensures Flatten(parts)[n + 1..] == parts[i][at + 1..] + Flatten(parts[i + 1..])
  {
    var first, more := parts[0], Flatten(parts[1..]);
    DropOfConcat(first, more, n + 1);
    if n < |first| {
      i, at := 0, n;
    } else {
      i, at := LocateIn(parts[1..], n - |first|);
      assert parts[1..][i + 1..] == parts[i + 2..];
      i := i + 1;
    }
  }

  lemma DropOfConcat<T>(a: seq<T>, b: seq<T>, n: nat)
    requires n <= |a| + |b|
    ensures (a + b)[n..] == if n <= |a| then a[n..] + b else b[n - |a|..]
  {
  }

  /** The name an entry belongs to, and where in the name's entries it is. */
  lemma Locate(t: Table, r: Request, names: seq<Bytes>, n: nat) returns (i: nat, at: nat)
    requires Consistent(t) && n < |ExpandAll(t, r, names)|
    ensures i < |names| && at < |Expand(t, r, names[i])|
    ensures ExpandAll(t, r, names)[n] == Expand(t, r, names[i])[at]
    ensures ExpandAll(t, r, names)[n + 1..] == Expand(t, r, names[i])[at + 1..] + ExpandAll(t, r, names[i + 1..])
  {
    ExpandAllIsFlat(t, r, names);
    i, at := LocateIn(Parts(t, r, names), n);
    ExpandAllIsFlat(t, r, names[i + 1..]);
    assert Parts(t, r, names)[i + 1..] == Parts(t, r, names[i + 1..]);
  }

  // ------------------------------------------------------- resuming at a marker

  lemma {:induction false} SkipExactly(entries: seq<Entry>, n: nat, first: seq<Entry>, rest: seq<Entry>, name: Bytes)
    requires n <= |entries| && entries[n..] == first + rest
    requires forall i :: 0 <= i < |first| ==> HasPrefix(EntryKey(first[i]), name)
    requires forall i :: 0 <= i < |rest| ==> !HasPrefix(EntryKey(rest[i]), name)
    ensures entries[SkipBelow(entries, n, name)..] == rest
    decreases |first|
  {
    if first == [] {
      assert [] + rest == rest;
      assert n < |entries| ==> entries[n] == entries[n..][0];
    } else {
      assert entries[n] == entries[n..][0] == first[0];
      assert entries[n + 1..] == entries[n..][1..] == first[1..] + rest;
      SkipExactly(entries, n + 1, first[1..], rest, name);
    }
  }

  /** The names after a listed one are not the marker the listing began at. */
  lemma LaterNamesAreNotMarker(t: Table, r: Request, i: nat, k: nat)
    requires L.CleanTable(t) && i < k < |NamesOf(t, r)|
    requires NameFrom(r, NamesOf(t, r)[i], NamesOf(t, r)[k])
    ensures NamesOf(t, r)[k] == r.keyMarker ==> MarkerIsPrefix(r)
    ensures NamesOf(t, r)[k] != NamesOf(t, r)[i]
  {
    var a, b := NamesOf(t, r)[i], NamesOf(t, r)[k];
    LtAsymmetric(a, b);
    var from := NameOfKey(t, r, a);
    var _ := NameOfKey(t, r, b);
    if L.EndsInDelimiter(r.delimiter, a) {
      P.LaterThanListed(r.prefix, r.delimiter, from, b);
    }
    LtAsymmetric(from, b);
    if b == r.keyMarker && Lt(b, from) {
      LtAsymmetric(b, from);
    }
  }

  /** The entries of the names from `j` on do not depend on which of the two
      markers the listing began at. */
  lemma LaterNamesExpandSame(t: Table, r: Request, r': Request, i: nat, j: nat)
    requires Consistent(t) && L.CleanTable(t) && i < |NamesOf(t, r)| && i < j <= |NamesOf(t, r)|
    requires r'.prefix == r.prefix && r'.delimiter == r.delimiter && r'.keyMarker == NamesOf(t, r)[i]
    requires NameResumeAt(r, NamesOf(t, r), i) <= j
    ensures ExpandAll(t, r', NamesOf(t, r)[j..]) == ExpandAll(t, r, NamesOf(t, r)[j..])
  {
    var names := NamesOf(t, r);
    var _ := NameOfKey(t, r, names[i]);
    forall k | 0 <= k < |names[j..]|
      ensures names[j..][k] == r.keyMarker ==> MarkerIsPrefix(r)
      ensures names[j..][k] != r'.keyMarker
    {
      NameFromIsSuffix(r, names, i, j + k);
      LaterNamesAreNotMarker(t, r, i, j + k);
    }
    ExpandAllSame(t, r, r', names[j..]);
  }

  /** What is left of a key's versions once one of them was listed. */
  lemma VersionsResume(t: Table, r: Request, r': Request, name: Bytes, at: nat)
    requires Consistent(t) && r'.prefix == r.prefix && r'.delimiter == r.delimiter
    requires at < |Expand(t, r, name)| && !L.Rolled(r.prefix, r.delimiter, name) && name != ""
    requires r' == ResumedBy(r, Expand(t, r, name)[at]) && !L.EndsInDelimiter(r.delimiter, name)
    ensures Expand(t, r', name) == Expand(t, r, name)[at + 1..]
  {
    var s := Versions(t, name);
    MarkerOfEntry(t, r, name, at);
    DistinctVersions(t, name);
    var n := ExpandIsSuffix(t, r, name);
    ResumeInList(s, n, at);
    ExpandFromMarker(t, r', name);
  }

  lemma ResumeInList(s: seq<ObjectInfo>, n: nat, at: nat)
    requires DistinctIds(s) && n + at < |s|
    ensures Wrap(VersionsAfterMarker(s, EntryVersionId(Wrap(s[n..])[at]))) == Wrap(s[n..])[at + 1..]
  {
    IdInList(s, n, at);
    RestAfter(s, n + at);
    WrapAfter(s, n, at);
  }

  lemma IdInList(s: seq<ObjectInfo>, n: nat, at: nat)
    requires n + at < |s|
    ensures EntryVersionId(Wrap(s[n..])[at]) == MarkerVersionId(s[n + at].versionId)
  {
  }

  lemma RestAfter(s: seq<ObjectInfo>, i: nat)
    requires DistinctIds(s) && i < |s|
    ensures Wrap(VersionsAfterMarker(s, MarkerVersionId(s[i].versionId))) == Wrap(s[i + 1..])
  {
    AfterVersionAt(s, i);
  }

  lemma MarkerOfEntry(t: Table, r: Request, name: Bytes, at: nat)
    requires Consistent(t) && at < |Expand(t, r, name)|
    ensures EntryKey(Expand(t, r, name)[at]) == name
  {
    ExpandKeys(t, r, name);
  }

  lemma DistinctVersions(t: Table, key: Bytes)
    requires Consistent(t)
    ensures DistinctIds(Versions(t, key))
  {
    StoredVersions(t, key);
  }

  lemma ExpandFromMarker(t: Table, r: Request, name: Bytes)
    requires r.keyMarker == name && !L.Rolled(r.prefix, r.delimiter, name) && !L.EndsInDelimiter(r.delimiter, name)
    ensures Expand(t, r, name) == Wrap(VersionsAfterMarker(Versions(t, name), r.versionIdMarker))
  {
  }

  lemma WrapAfter(s: seq<ObjectInfo>, n: nat, at: nat)
    requires n + at < |s|
    ensures Wrap(s[n..])[at] == ObjectVersion(s[n + at]) && Wrap(s[n..])[at + 1..] == Wrap(s[n + at + 1..])
  {
  }

  /** The names at or below a listed one that ends in the delimiter, and the rest. */
  lemma NamesBelow(t: Table, r: Request, i: nat)
    requires L.CleanTable(t) && i < |NamesOf(t, r)| && L.EndsInDelimiter(r.delimiter, NamesOf(t, r)[i])
    ensures
      var names := NamesOf(t, r);
      forall k :: i < k < |names| ==> (HasPrefix(names[k], names[i]) <==> k < NameResumeAt(r, names, i))
  {
    var names := NamesOf(t, r);
    var _ := NameOfKey(t, r, names[i]);
    forall k | i < k < |names|
      ensures HasPrefix(names[k], names[i]) <==> k < NameResumeAt(r, names, i)
    {
      NameFromIsSuffix(r, names, i, k);
    }
  }

  /** What follows an entry of such a name: entries at or below the name, then those
      that are not. */
  lemma SplitBelow(t: Table, r: Request, names: seq<Bytes>, i: nat, j: nat, own: seq<Entry>) returns (first: seq<Entry>)
    requires Consistent(t) && i < j <= |names|
    requires forall k :: i < k < |names| ==> (HasPrefix(names[k], names[i]) <==> k < j)
    requires forall k :: 0 <= k < |own| ==> HasPrefix(EntryKey(own[k]), names[i])
    ensures own + ExpandAll(t, r, names[i + 1..]) == first + ExpandAll(t, r, names[j..])
    ensures forall k :: 0 <= k < |first| ==> HasPrefix(EntryKey(first[k]), names[i])
    ensures forall k :: 0 <= k < |ExpandAll(t, r, names[j..])| ==> !HasPrefix(EntryKey(ExpandAll(t, r, names[j..])[k]), names[i])
  {
    var between, rest := names[i + 1..j], names[j..];
    assert names[i + 1..] == between + rest;
    ExpandConcat(t, r, between, rest);
    ExpandAllKeys(t, r, between, names[i], true);
    ExpandAllKeys(t, r, rest, names[i], false);
    Concat(own, ExpandAll(t, r, between), ExpandAll(t, r, rest));
    first := own + ExpandAll(t, r, between);
  }

  lemma ResumesBelow(t: Table, r: Request, r': Request, entries: seq<Entry>, n: nat, i: nat, own: seq<Entry>)
    requires Consistent(t) && L.CleanTable(t) && i < |NamesOf(t, r)| && 0 < n <= |entries|
    requires L.EndsInDelimiter(r.delimiter, NamesOf(t, r)[i]) && EntryKey(entries[n - 1]) == NamesOf(t, r)[i]
    requires Keyed(own, NamesOf(t, r)[i])
    requires entries[n..] == own + ExpandAll(t, r, NamesOf(t, r)[i + 1..])
    requires r'.prefix == r.prefix && r'.delimiter == r.delimiter && r'.keyMarker == NamesOf(t, r)[i]
    requires NamesOf(t, r') == NamesOf(t, r)[NameResumeAt(r, NamesOf(t, r), i)..]
    ensures Entries(t, r') == entries[ResumeAt(r.delimiter, entries, n)..]
  {
    var names := NamesOf(t, r);
    var j := NameResumeAt(r, names, i);
    NamesBelow(t, r, i);
    var first := SplitBelow(t, r, names, i, j, own);
    SkipExactly(entries, n, first, ExpandAll(t, r, names[j..]), names[i]);
    LaterNamesExpandSame(t, r, r', i, j);
  }

  lemma ResumesWithin(t: Table, r: Request, r': Request, i: nat, at: nat)
    requires Consistent(t) && L.CleanTable(t) && i < |NamesOf(t, r)|
    requires !L.EndsInDelimiter(r.delimiter, NamesOf(t, r)[i])
    requires at < |Expand(t, r, NamesOf(t, r)[i])| && r' == ResumedBy(r, Expand(t, r, NamesOf(t, r)[i])[at])
    requires r'.keyMarker == NamesOf(t, r)[i] && NamesOf(t, r') == NamesOf(t, r)[i..]
    ensures Entries(t, r') == Expand(t, r, NamesOf(t, r)[i])[at + 1..] + ExpandAll(t, r, NamesOf(t, r)[i + 1..])
  {
    var names := NamesOf(t, r);
    var _ := NameOfKey(t, r, names[i]);
    VersionsResume(t, r, r', names[i], at);
    LaterNamesExpandSame(t, r, r', i, i + 1);
    assert names[i..][1..] == names[i + 1..];
  }

  /** The listing from the marker of a page of `n` entries, even if the page ends
      among one key's versions. */
  lemma Resumes(t: Table, r: Request, n: nat)
    requires Consistent(t) && L.CleanTable(t) && 0 < n <= |Entries(t, r)|
    ensures
      var entries := Entries(t, r);
      Entries(t, ResumedBy(r, entries[n - 1])) == entries[ResumeAt(r.delimiter, entries, n)..]
  {
    var entries, names := Entries(t, r), NamesOf(t, r);
    var r' := ResumedBy(r, entries[n - 1]);
    var i, at := Locate(t, r, names, n - 1);
    ExpandKeys(t, r, names[i]);
    NamesAreSuffix(t, r, i);
    SameNames(t, r', r.(keyMarker := names[i]));
    if L.EndsInDelimiter(r.delimiter, names[i]) {
      KeyedDrop(Expand(t, r, names[i]), at + 1, names[i]);
      ResumesBelow(t, r, r', entries, n, i, Expand(t, r, names[i])[at + 1..]);
    } else {
      ResumesWithin(t, r, r', i, at);
    }
  }

  lemma KeyedDrop(entries: seq<Entry>, n: nat, name: Bytes)
    requires Keyed(entries, name) && n <= |entries|
    ensures Keyed(entries[n..], name)
  {
  }

  lemma SameNames(t: Table, r: Request, r': Request)
    requires r'.prefix == r.prefix && r'.delimiter == r.delimiter && r'.keyMarker == r.keyMarker
    ensures NamesOf(t, r) == NamesOf(t, r')
  {
    assert Keys(t, r) == Keys(t, r');
  }

  // -------------------------------------------------------- following the markers

  function Next(r: Request, page: Page): Request {
    r.(keyMarker := page.nextKeyMarker, versionIdMarker := page.nextVersionIdMarker)
  }

  lemma MarkerAdvances(t: Table, r: Request)
    requires Consistent(t) && L.CleanTable(t) && PageOf(t, r).isTruncated
    ensures Limit(r) < |Entries(t, r)|
    ensures Entries(t, Next(r, PageOf(t, r))) == Entries(t, r)[ResumeAt(r.delimiter, Entries(t, r), Limit(r))..]
  {
    Resumes(t, r, Limit(r));
  }

  /** The pages a client gets, from the request it starts with. */
  function Follow(t: Table, r: Request): seq<Page>
    requires Consistent(t) && L.CleanTable(t)
    decreases |Entries(t, r)|
  {
    var page := PageOf(t, r);
    if page.isTruncated then
      MarkerAdvances(t, r);
      [page] + Follow(t, Next(r, page))
    else
      [page]
  }

  function AllVersions(pages: seq<Page>): seq<ObjectInfo> {
    if pages == [] then [] else pages[0].versions + AllVersions(pages[1..])
  }

  function AllDeleteMarkers(pages: seq<Page>): seq<ObjectInfo> {
    if pages == [] then [] else pages[0].deleteMarkers + AllDeleteMarkers(pages[1..])
  }

  function AllPrefixes(pages: seq<Page>): seq<Bytes> {
    if pages == [] then [] else pages[0].commonPrefixes + AllPrefixes(pages[1..])
  }

  predicate AddUpTo(pages: seq<Page>, entries: seq<Entry>) {
    && AllVersions(pages) == Live(entries)
    && AllDeleteMarkers(pages) == DeleteMarkers(entries)
    && AllPrefixes(pages) == CommonPrefixes(entries)
  }

  function Collected(pages: seq<Page>): nat {
    |AllVersions(pages)| + |AllDeleteMarkers(pages)| + |AllPrefixes(pages)|
  }

  /** Pages that hold no more than `entries`, and all of them exactly if every cut
      is clean. */
  predicate CollectedFrom(r: Request, pages: seq<Page>, entries: seq<Entry>) {
    && (AddUpTo(pages, entries) <==> CleanCuts(r.delimiter, entries, Limit(r)))
    && Collected(pages) <= |entries|
  }

  lemma {:induction false} ShownConcat(a: seq<Entry>, b: seq<Entry>)
    ensures Live(a + b) == Live(a) + Live(b)
    ensures DeleteMarkers(a + b) == DeleteMarkers(a) + DeleteMarkers(b)
    ensures CommonPrefixes(a + b) == CommonPrefixes(a) + CommonPrefixes(b)
  {
    if b == [] {
      assert a + b == a;
    } else {
      var c, e := b[..|b| - 1], b[|b| - 1];
      assert b == c + [e] && a + b == (a + c) + [e];
      ShownConcat(a, c);
      ShownSnoc(a + c, e);
      ShownSnoc(c, e);
    }
  }

  /** From any markers, following them ends, and the pages add up to the whole
      listing, each version, delete marker and common prefix once and in order,
      exactly if no page ends on a version whose key ends in the delimiter while the
      next entry lies at or below that key. */
  lemma {:induction false} PagesAreTheListing(t: Table, r: Request)
    requires Consistent(t) && L.CleanTable(t)
    ensures CollectedFrom(r, Follow(t, r), Entries(t, r))
    decreases |Entries(t, r)|
  {
    var page := PageOf(t, r);
    if page.isTruncated {
      var next := Next(r, page);
      MarkerAdvances(t, r);
      PagesAreTheListing(t, next);
      Stitch(r, page, Follow(t, next), Entries(t, r));
    } else {
      EntryCount(Entries(t, r));
      OnePage(page);
    }
  }

  lemma OnePage(page: Page)
    ensures AllVersions([page]) == page.versions
    ensures AllDeleteMarkers([page]) == page.deleteMarkers
    ensures AllPrefixes([page]) == page.commonPrefixes
  {
    assert [page][1..] == [];
    assert page.versions + [] == page.versions;
    assert page.deleteMarkers + [] == page.deleteMarkers;
    assert page.commonPrefixes + [] == page.commonPrefixes;
  }

  /** Putting a page before what follows its marker. */
  lemma Stitch(r: Request, page: Page, pages: seq<Page>, entries: seq<Entry>)
    requires Limit(r) < |entries| && page == Truncated(Shown(entries[..Limit(r)]), entries[Limit(r) - 1])
    requires CollectedFrom(r, pages, entries[ResumeAt(r.delimiter, entries, Limit(r))..])
    ensures CollectedFrom(r, [page] + pages, entries)
  {
    var front, back := entries[..Limit(r)], entries[Limit(r)..];
    assert ([page] + pages)[1..] == pages;
    assert entries == front + back;
    ShownConcat(front, back);
    EntryCount(front);
    EntryCount(entries);
    P.Cancel(Live(front), AllVersions(pages), Live(back));
    P.Cancel(DeleteMarkers(front), AllDeleteMarkers(pages), DeleteMarkers(back));
    P.Cancel(CommonPrefixes(front), AllPrefixes(pages), CommonPrefixes(back));
  }

  // ----------------------------------------------------- what the listing holds

  /** One entry comes before another: of another key, or an earlier version. */
  predicate Before(a: Entry, b: Entry) {
    || Lt(EntryKey(a), EntryKey(b))
    || (&& a.ObjectVersion? && b.ObjectVersion? && a.info.key == b.info.key
        && a.info.modified >= b.info.modified && EntryVersionId(a) != EntryVersionId(b))
  }

  lemma OneNameInOrder(t: Table, r: Request, name: Bytes, i: nat, j: nat)
    requires Consistent(t) && i < j < |Expand(t, r, name)|
    ensures Before(Expand(t, r, name)[i], Expand(t, r, name)[j])
  {
    var s := Versions(t, name);
    StoredVersions(t, name);
    NewestFirstDescends(KeyVersions(t, name));
    var n := ExpandIsSuffix(t, r, name);
    VersionsInOrder(s, name, n, i, j);
  }

  lemma VersionsInOrder(s: seq<ObjectInfo>, key: Bytes, n: nat, i: nat, j: nat)
    requires Descending(s) && DistinctIds(s) && i < j && n + j < |s| && forall info :: info in s ==> info.key == key
    ensures Before(Wrap(s[n..])[i], Wrap(s[n..])[j])
  {
    WrapAfter(s, n, i);
    WrapAfter(s, n, j);
    assert s[n + i] in s && s[n + j] in s;
  }

  ghost predicate InListOrder(entries: seq<Entry>) {
    forall i, j :: 0 <= i < j < |entries| ==> Before(entries[i], entries[j])
  }

  predicate KeysAfter(entries: seq<Entry>, name: Bytes) {
    forall i :: 0 <= i < |entries| ==> Lt(name, EntryKey(entries[i]))
  }

  lemma {:induction false} LaterNamesLater(t: Table, r: Request, names: seq<Bytes>, name: Bytes)
    requires Consistent(t) && forall k :: 0 <= k < |names| ==> Lt(name, names[k])
    ensures KeysAfter(ExpandAll(t, r, names), name)
  {
    if names != [] {
      ExpandKeys(t, r, names[0]);
      LaterNamesLater(t, r, names[1..], name);
      KeysAfterConcat(Expand(t, r, names[0]), ExpandAll(t, r, names[1..]), names[0], name);
    }
  }

  lemma KeysAfterConcat(a: seq<Entry>, b: seq<Entry>, first: Bytes, name: Bytes)
    requires Keyed(a, first) && Lt(name, first) && KeysAfter(b, name)
    ensures KeysAfter(a + b, name)
  {
  }

  lemma InOrderConcat(a: seq<Entry>, b: seq<Entry>, name: Bytes)
    requires InListOrder(a) && InListOrder(b) && Keyed(a, name) && KeysAfter(b, name)
    ensures InListOrder(a + b)
  {
  }

  /** Keys ascend, and within a key versions come newest first, none twice. */
  lemma {:induction false} ListedInOrder(t: Table, r: Request, names: seq<Bytes>)
    requires Consistent(t) && Ascending(names)
    ensures InListOrder(ExpandAll(t, r, names))
  {
    if names != [] {
      forall i, j | 0 <= i < j < |Expand(t, r, names[0])|
        ensures Before(Expand(t, r, names[0])[i], Expand(t, r, names[0])[j])
      {
        OneNameInOrder(t, r, names[0], i, j);
      }
      P.SuffixAscends(names, 1);
      ListedInOrder(t, r, names[1..]);
      ExpandKeys(t, r, names[0]);
      LaterNamesLater(t, r, names[1..], names[0]);
      InOrderConcat(Expand(t, r, names[0]), ExpandAll(t, r, names[1..]), names[0]);
    }
  }

  /** Any listing is in that order. */
  lemma EntriesInOrder(t: Table, r: Request)
    requires Consistent(t)
    ensures InListOrder(Entries(t, r))
  {
    ListedInOrder(t, r, NamesOf(t, r));
  }

  lemma {:induction false} InExpandAll(t: Table, r: Request, names: seq<Bytes>, e: Entry)
    ensures e in ExpandAll(t, r, names) <==> exists n :: n in names && e in Expand(t, r, n)
  {
    if names != [] {
      InExpandAll(t, r, names[1..], e);
    }
  }

  /** A stored version of a key under the prefix that no delimiter rolls up. */
  ghost predicate StoredUnder(t: Table, r: Request, rk: RecordKey, info: ObjectInfo) {
    Primary(t, rk) && t[rk] == info && HasPrefix(rk.key, r.prefix) && !RolledUp(r.prefix, r.delimiter, rk.key)
  }

  lemma ListedIsStored(t: Table, r: Request, info: ObjectInfo) returns (rk: RecordKey)
    requires Consistent(t) && L.CleanTable(t) && r.keyMarker == "" && ObjectVersion(info) in Entries(t, r)
    ensures StoredUnder(t, r, rk, info)
  {
    InExpandAll(t, r, NamesOf(t, r), ObjectVersion(info));
    var name :| name in NamesOf(t, r) && ObjectVersion(info) in Expand(t, r, name);
    var _ := NameOfKey(t, r, name);
    InVersions(t, name, info);
    KeyVersionsAreStored(t, name, info);
    rk :| rk.key == name && Primary(t, rk) && t[rk] == info;
  }

  lemma StoredIsListed(t: Table, r: Request, rk: RecordKey, info: ObjectInfo)
    requires Consistent(t) && L.CleanTable(t) && r.keyMarker == "" && StoredUnder(t, r, rk, info)
    ensures ObjectVersion(info) in Entries(t, r)
  {
    var name := rk.key;
    assert RecordOk(t, rk);
    KeyVersionsAreStored(t, name, info);
    InVersions(t, name, info);
    NameIsListedUnderItself(r.prefix, r.delimiter, name);
    L.SameName(r.prefix, r.delimiter, name);
    assert Le("", name);
    assert name in Keys(t, r) && name in NamesOf(t, r);
    assert ObjectVersion(info) in Expand(t, r, name);
    InExpandAll(t, r, NamesOf(t, r), ObjectVersion(info));
  }

  /** A read of the record's key by its version ID finds it. */
  predicate FoundById(t: Table, info: ObjectInfo) {
    Lookup(t, info.key, if info.versionId == "" then "null" else info.versionId) == Some(info)
  }

  lemma StoredIsFound(t: Table, info: ObjectInfo)
    requires Consistent(t)
    ensures FoundById(t, info) <==> exists rk :: Primary(t, rk) && t[rk] == info
  {
    var v := if info.versionId == "" then "null" else info.versionId;
    assert Pointer(info.key) in t ==> RecordOk(t, Pointer(info.key));
    assert Version(info.key, v) in t ==> RecordOk(t, Version(info.key, v));
    if FoundById(t, info) {
      var rk := if Version(info.key, v) in t then Version(info.key, v) else Pointer(info.key);
      assert Primary(t, rk) && t[rk] == info;
    }
    if rk :| Primary(t, rk) && t[rk] == info {
      assert RecordOk(t, rk);
    }
  }

  /** A listing without markers holds exactly the versions that reads by key and
      version ID find, of the keys under the prefix in which no delimiter follows it. */
  lemma ListsEveryVersion(t: Table, r: Request, info: ObjectInfo)
    requires Consistent(t) && L.CleanTable(t) && r.keyMarker == ""
    ensures
      ObjectVersion(info) in Entries(t, r) <==>
      FoundById(t, info) && HasPrefix(info.key, r.prefix) && !exists j: nat :: P.CutAt(r.prefix, r.delimiter, info.key, j)
  {
    StoredIsFound(t, info);
    if ObjectVersion(info) in Entries(t, r) {
      var rk := ListedIsStored(t, r, info);
      assert RecordOk(t, rk);
      P.RolledIffCut(r.prefix, r.delimiter, info.key);
    }
    if FoundById(t, info) && HasPrefix(info.key, r.prefix) {
      var rk :| Primary(t, rk) && t[rk] == info;
      assert RecordOk(t, rk);
      P.RolledIffCut(r.prefix, r.delimiter, info.key);
      if !RolledUp(r.prefix, r.delimiter, info.key) {
        StoredIsListed(t, r, rk, info);
      }
    }
  }

  lemma InVersions(t: Table, key: Bytes, info: ObjectInfo)
    ensures info in KeyVersions(t, key) <==> ObjectVersion(info) in Wrap(Versions(t, key))
  {
    var s, w := Versions(t, key), Wrap(Versions(t, key));
    assert info in s <==> info in multiset(s);
    assert info in KeyVersions(t, key) <==> info in multiset(KeyVersions(t, key));
    if info in s {
      var i :| 0 <= i < |s| && s[i] == info;
      assert w[i] == ObjectVersion(info);
    }
  }

  /** The keys that roll up into a name. */
  ghost predicate RollsUpInto(t: Table, r: Request, key: Bytes, name: Bytes) {
    && Pointer(key) in t && HasPrefix(key, r.prefix)
    && RolledUp(r.prefix, r.delimiter, key) && NameOf(r.prefix, r.delimiter, key) == name
  }

  lemma PrefixHasKey(t: Table, r: Request, name: Bytes) returns (key: Bytes)
    requires Consistent(t) && L.CleanTable(t) && CommonPrefix(name) in Entries(t, r)
    ensures RollsUpInto(t, r, key, name)
  {
    InExpandAll(t, r, NamesOf(t, r), CommonPrefix(name));
    var n :| n in NamesOf(t, r) && CommonPrefix(name) in Expand(t, r, n);
    EntryOfName(t, r, n, CommonPrefix(name));
    key := NameOfKey(t, r, n);
    L.SameName(r.prefix, r.delimiter, key);
  }

  lemma KeyHasPrefix(t: Table, r: Request, key: Bytes, name: Bytes)
    requires Consistent(t) && L.CleanTable(t) && r.keyMarker == "" && RollsUpInto(t, r, key, name)
    ensures CommonPrefix(name) in Entries(t, r)
  {
    NameIsListedUnderItself(r.prefix, r.delimiter, key);
    L.SameName(r.prefix, r.delimiter, key);
    assert Le("", key);
    assert key in Keys(t, r) && name in NamesOf(t, r);
    assert CommonPrefix(name) in Expand(t, r, name);
    InExpandAll(t, r, NamesOf(t, r), CommonPrefix(name));
  }

  /** And one common prefix for each name that keys under the prefix roll up into. */
  lemma ListsEveryPrefix(t: Table, r: Request, name: Bytes)
    requires Consistent(t) && L.CleanTable(t) && r.keyMarker == ""
    ensures CommonPrefix(name) in Entries(t, r) <==> exists key :: RollsUpInto(t, r, key, name)
    ensures forall i, j :: 0 <= i < j < |Entries(t, r)| && Entries(t, r)[i] == CommonPrefix(name) ==> Entries(t, r)[j] != CommonPrefix(name)
  {
    if CommonPrefix(name) in Entries(t, r) {
      var key := PrefixHasKey(t, r, name);
    }
    if key :| RollsUpInto(t, r, key, name) {
      KeyHasPrefix(t, r, key, name);
    }
    EntriesInOrder(t, r);
    LtIrreflexive(name);
  }

  lemma EntryOfName(t: Table, r: Request, name: Bytes, e: Entry)
    requires Consistent(t) && L.CleanTable(t) && name in NamesOf(t, r) && e in Expand(t, r, name)
    ensures EntryKey(e) == name && EntryOk(r, e)
  {
    var _ := NameOfKey(t, r, name);
    ExpandKeys(t, r, name);
  }

  // ------------------------------------------------------ the folder-marker case

  /** An entry's key is a name of the listing; a rolled-up one is a common prefix. */
  predicate EntryOk(r: Request, e: Entry) {
    var name := EntryKey(e);
    && HasPrefix(name, r.prefix) && NameOf(r.prefix, r.delimiter, name) == name
    && (e.CommonPrefix? <==> RolledUp(r.prefix, r.delimiter, name))
  }

  lemma EntriesOk(t: Table, r: Request)
    requires Consistent(t) && L.CleanTable(t)
    ensures forall e :: e in Entries(t, r) ==> EntryOk(r, e)
  {
    forall e | e in Entries(t, r)
      ensures EntryOk(r, e)
    {
      InExpandAll(t, r, NamesOf(t, r), e);
      var name :| name in NamesOf(t, r) && e in Expand(t, r, name);
      EntryOfName(t, r, name, e);
    }
  }

  lemma RolledHidesNothing(r: Request, a: Entry, b: Entry)
    requires EntryOk(r, a) && EntryOk(r, b) && Before(a, b) && a.CommonPrefix?
    ensures !HasPrefix(EntryKey(b), EntryKey(a))
  {
    P.NothingBelowRolled(r.prefix, r.delimiter, EntryKey(a), EntryKey(b));
    LtIrreflexive(EntryKey(a));
  }

  lemma {:induction false} CleanIfRolled(r: Request, entries: seq<Entry>, n: nat)
    requires n > 0 && InListOrder(entries) && forall e :: e in entries ==> EntryOk(r, e)
    requires forall i :: n - 1 <= i < |entries| && L.EndsInDelimiter(r.delimiter, EntryKey(entries[i])) ==> entries[i].CommonPrefix?
    ensures CleanCuts(r.delimiter, entries, n)
  {
    if n < |entries| {
      CleanIfRolled(r, entries[n..], n);
      if Hides(r.delimiter, entries, n) {
        assert entries[n - 1] in entries && entries[n] in entries;
        RolledHidesNothing(r, entries[n - 1], entries[n]);
      }
    }
  }

  /** If no listed version's key ends in the delimiter, nothing is ever missed; without
      a delimiter none does. */
  lemma NothingHidden(t: Table, r: Request)
    requires Consistent(t) && L.CleanTable(t)
    requires forall e :: e in Entries(t, r) && L.EndsInDelimiter(r.delimiter, EntryKey(e)) ==> e.CommonPrefix?
    ensures AddUpTo(Follow(t, r), Entries(t, r))
  {
    PagesAreTheListing(t, r);
    EntriesInOrder(t, r);
    EntriesOk(t, r);
    CleanIfRolled(r, Entries(t, r), Limit(r));
  }

  /** Once past the versions of the prefix itself, none of its versions follows. */
  lemma PastThePrefix(r: Request, entries: seq<Entry>, i: nat, j: nat)
    requires InListOrder(entries) && (forall e :: e in entries ==> EntryOk(r, e)) && i <= j < |entries|
    requires EntryKey(entries[j]) == r.prefix
    ensures EntryKey(entries[i]) == r.prefix
  {
    if i < j {
      assert entries[i] in entries;
      PrefixIsLe(EntryKey(entries[i]), r.prefix);
      assert Before(entries[i], entries[j]);
      if Lt(EntryKey(entries[i]), r.prefix) {
        LeLtTransitive(r.prefix, EntryKey(entries[i]), r.prefix);
        LtIrreflexive(r.prefix);
      }
    }
  }

  /** With a one-character delimiter, following the markers misses part of a listing
      exactly if the prefix ends in the delimiter, is itself an object's key, the
      first page ends on a version of it, and something follows. */
  lemma OnlyFolderMarkersHide(t: Table, r: Request)
    requires Consistent(t) && L.CleanTable(t) && |r.delimiter| == 1
    ensures
      var entries := Entries(t, r);
      AddUpTo(Follow(t, r), entries) <==>
      !(|entries| > Limit(r) && HasSuffix(r.prefix, r.delimiter) && EntryKey(entries[Limit(r) - 1]) == r.prefix)
  {
    var entries, n := Entries(t, r), Limit(r);
    PagesAreTheListing(t, r);
    EntriesInOrder(t, r);
    EntriesOk(t, r);
    if |entries| > n && HasSuffix(r.prefix, r.delimiter) && EntryKey(entries[n - 1]) == r.prefix {
      assert entries[n] in entries;
      assert Hides(r.delimiter, entries, n);
    } else if |entries| > n {
      forall i | n - 1 <= i < |entries| && L.EndsInDelimiter(r.delimiter, EntryKey(entries[i]))
        ensures entries[i].CommonPrefix?
      {
        assert entries[i] in entries;
        P.ObjectEndingInDelimiter(r.prefix, r.delimiter, EntryKey(entries[i]));
        if EntryKey(entries[i]) == r.prefix {
          PastThePrefix(r, entries, n - 1, i);
        }
      }
      CleanIfRolled(r, entries, n);
    }
  }

  lemma FolderVersions(key: Bytes)
    requires Pointer(key) in P.Folder()
    ensures Versions(P.Folder(), key) == [P.Stub(key)]
  {
    assert VersionIds(P.Folder(), key) - {""} == {};
    assert KeyVersions(P.Folder(), key) == [P.Stub(key)];
    assert [P.Stub(key)][1..] == [];
  }

  lemma FolderKeys(r: Request)
    requires r.prefix == "d/" && r.delimiter == "/" && r.keyMarker == ""
    ensures Keys(P.Folder(), r) == L.Keys(P.Folder(), "d/", "/", "")
  {
    assert forall k :: Le("", k);
  }

  lemma FolderNames(r: Request)
    requires r.prefix == "d/" && r.delimiter == "/" && r.keyMarker == ""
    ensures NamesOf(P.Folder(), r) == ["d/"] + ["d/a"]
    ensures !L.Rolled("d/", "/", "d/") && !L.Rolled("d/", "/", "d/a")
  {
    assert "d/" + "" == "d/" && "d/" + "a" == "d/a";
    P.NotRolledUp("d/", '/', "");
    P.NotRolledUp("d/", '/', "a");
    FolderKeys(r);
    P.FolderKeys();
    P.TwoEntries(P.Folder(), "d/", "/", "a");
  }

  lemma FolderListing(r: Request)
    requires r.prefix == "d/" && r.delimiter == "/" && r.keyMarker == ""
    ensures Entries(P.Folder(), r) == [ObjectVersion(P.Stub("d/"))] + [ObjectVersion(P.Stub("d/a"))]
  {
    var t := P.Folder();
    FolderNames(r);
    FolderVersions("d/");
    FolderVersions("d/a");
    assert Expand(t, r, "d/") == [ObjectVersion(P.Stub("d/"))];
    assert Expand(t, r, "d/a") == [ObjectVersion(P.Stub("d/a"))];
    TwoNames(t, r, "d/", "d/a");
  }

  lemma TwoNames(t: Table, r: Request, a: Bytes, b: Bytes)
    ensures ExpandAll(t, r, [a] + [b]) == Expand(t, r, a) + Expand(t, r, b)
  {
    assert ([a] + [b])[1..] == [b] && [b][1..] == [];
    assert ExpandAll(t, r, [b]) == Expand(t, r, b) + [];
  }

  /** Listing the versions below "d/" one at a time, with an object "d/" and an
      object "d/a": the version of "d/a" is in the listing, but on no page. */
  lemma FolderMarkerHidesVersions()
    ensures
      var r := Request("d/", "/", "", "", 1);
      && Consistent(P.Folder()) && L.CleanTable(P.Folder())
      && ObjectVersion(P.Stub("d/a")) in Entries(P.Folder(), r)
      && !AddUpTo(Follow(P.Folder(), r), Entries(P.Folder(), r))
  {
    var r := Request("d/", "/", "", "", 1);
    P.FolderTable();
    FolderListing(r);
    var entries := Entries(P.Folder(), r);
    assert entries[1] == ObjectVersion(P.Stub("d/a"));
    OnlyFolderMarkersHide(P.Folder(), r);
  }

  // ------------------------------------------------- a marker whose version is gone

  /** Whether some version of the list comes after the one with the marker's id. */
  predicate HasOlder(s: seq<ObjectInfo>, id: Bytes) {
    exists i :: 0 <= i < |s| - 1 && MarkerVersionId(s[i].versionId) == id
  }

  lemma {:induction false} AfterMarkerIff(s: seq<ObjectInfo>, id: Bytes)
    requires DistinctIds(s)
    ensures VersionsAfterMarker(s, id) != [] <==> id != "" && HasOlder(s, id)
  {
    if id != "" && s != [] {
      AfterMarkerIff(s[1..], id);
      if HasOlder(s[1..], id) {
        var i :| 0 <= i < |s[1..]| - 1 && MarkerVersionId(s[1..][i].versionId) == id;
        assert MarkerVersionId(s[i + 1].versionId) == id;
      }
      if i :| 0 < i < |s| - 1 && MarkerVersionId(s[i].versionId) == id {
        assert MarkerVersionId(s[1..][i - 1].versionId) == id;
      }
    }
  }

  /** Resuming among the versions of a key lists any more of them if and only if the
      marker's version is still there and is not the oldest: once it was deleted, the
      rest of the key's versions is dropped. */
  lemma RestOfKeyIff(t: Table, r: Request)
    requires Consistent(t) && L.CleanTable(t) && r.keyMarker != "" && Pointer(r.keyMarker) in t && HasPrefix(r.keyMarker, r.prefix)
    requires !RolledUp(r.prefix, r.delimiter, r.keyMarker) && !L.EndsInDelimiter(r.delimiter, r.keyMarker)
    ensures (exists e :: e in Entries(t, r) && EntryKey(e) == r.keyMarker) <==>
            r.versionIdMarker != "" && HasOlder(Versions(t, r.keyMarker), r.versionIdMarker)
  {
    var key, names := r.keyMarker, NamesOf(t, r);
    var own := Expand(t, r, key);
    StoredVersions(t, key);
    AfterMarkerIff(Versions(t, key), r.versionIdMarker);
    NameIsListedUnderItself(r.prefix, r.delimiter, key);
    L.SameName(r.prefix, r.delimiter, key);
    assert key in Keys(t, r) && key in names;
    if own != [] {
      InExpandAll(t, r, names, own[0]);
      EntryOfName(t, r, key, own[0]);
    }
    if e :| e in Entries(t, r) && EntryKey(e) == key {
      InExpandAll(t, r, names, e);
      var name :| name in names && e in Expand(t, r, name);
      EntryOfName(t, r, name, e);
    }
  }
}
