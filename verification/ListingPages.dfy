/** What a client gets that follows continuation tokens until a page is not
    truncated. */
module ListingPages {
  import opened ByteOrder
  import opened Records
  import opened RollUp
  import opened Listing

  // ------------------------------------------------------------- cutting pages

  /** A token that ends in the delimiter hides every entry below it. After a
      rolled-up prefix that is meant; after an object it loses them. */
  predicate Hides(delimiter: Bytes, entries: seq<Bytes>, n: nat)
    requires 0 < n < |entries|
  {
    EndsInDelimiter(delimiter, entries[n - 1]) && HasPrefix(entries[n], entries[n - 1])
  }

  /** No page of `n` entries ends on an object that hides the next entry. */
  predicate CleanCuts(delimiter: Bytes, entries: seq<Bytes>, n: nat)
    requires n > 0
  {
    |entries| <= n || (!Hides(delimiter, entries, n) && CleanCuts(delimiter, entries[n..], n))
  }

  /** The first entry from `n` on that is not below `name`. */
  function SkipBelow(entries: seq<Bytes>, n: nat, name: Bytes): (m: nat)
    requires n <= |entries|
    ensures n <= m <= |entries|
    ensures forall i :: n <= i < m ==> HasPrefix(entries[i], name)
    ensures m < |entries| ==> !HasPrefix(entries[m], name)
    decreases |entries| - n
  {
    if n < |entries| && HasPrefix(entries[n], name) then SkipBelow(entries, n + 1, name) else n
  }

  /** Where the listing resumes when a page ends after `n` entries. */
  function ResumeAt(delimiter: Bytes, entries: seq<Bytes>, n: nat): (m: nat)
    requires 0 < n <= |entries|
    ensures n <= m <= |entries|
    ensures n < |entries| ==> (m == n <==> !Hides(delimiter, entries, n))
  {
    if EndsInDelimiter(delimiter, entries[n - 1]) then SkipBelow(entries, n, entries[n - 1]) else n
  }

  // -------------------------------------------------------- resuming at a token

  /** Being after a listed entry means the same for a key and for its name. */
  lemma AfterByName(prefix: Bytes, delimiter: Bytes, entry: Bytes, key: Bytes)
    requires HasPrefix(key, prefix) && HasPrefix(entry, prefix) && entry != ""
    requires NameOf(prefix, delimiter, entry) == entry
    ensures After(delimiter, entry, key) <==> After(delimiter, entry, NameOf(prefix, delimiter, key))
  {
    var name := NameOf(prefix, delimiter, key);
    NameIsListedUnderItself(prefix, delimiter, key);
    NameIsListedUnderItself(prefix, delimiter, entry);
    ListedUnder(prefix, delimiter, entry, key);
    if After(delimiter, entry, key) {
      NamesInOrder(prefix, delimiter, entry, key);
      LtIrreflexive(entry);
      if HasPrefix(name, entry) {
        HasPrefixTransitive(key, name, entry);
      }
    }
    if After(delimiter, entry, name) {
      PrefixIsLe(key, name);
      LeLtTransitive(entry, name, key);
      if HasPrefix(key, entry) {
        if |entry| <= |name| {
          PrefixesNest(key, entry, name);
        } else {
          PrefixesNest(key, name, entry);
          PrefixIsLe(entry, name);
          LeLtTransitive(entry, name, entry);
          LtIrreflexive(entry);
        }
      }
    }
  }

  /** A key after an entry is after every key listed under that entry. */
  lemma LaterThanListed(prefix: Bytes, delimiter: Bytes, key: Bytes, later: Bytes)
    requires HasPrefix(key, prefix) && HasPrefix(later, prefix) && NameOf(prefix, delimiter, key) != ""
    requires After(delimiter, NameOf(prefix, delimiter, key), later)
    ensures Lt(key, later)
  {
    var name := NameOf(prefix, delimiter, key);
    NameIsListedUnderItself(prefix, delimiter, key);
    PrefixIsLe(key, name);
    LtTotal(key, later);
    LtIrreflexive(name);
    if Lt(later, key) {
      LtTransitive(name, later, key);
      assert RolledUp(prefix, delimiter, name);
      PrefixBlockEnds(name, later, key);
    }
  }

  /** A key after an entry of the listing is after the marker the listing began at. */
  lemma StillAfterMarker(prefix: Bytes, delimiter: Bytes, marker: Bytes, key: Bytes, later: Bytes)
    requires HasPrefix(key, prefix) && HasPrefix(later, prefix)
    requires After(delimiter, marker, key) && NameOf(prefix, delimiter, key) != ""
    requires After(delimiter, NameOf(prefix, delimiter, key), later)
    ensures After(delimiter, marker, later)
  {
    LaterThanListed(prefix, delimiter, key, later);
    if marker != "" {
      LtTransitive(marker, key, later);
      if HasPrefix(later, marker) && EndsInDelimiter(delimiter, marker) {
        PrefixBlockEnds(marker, key, later);
      }
    }
  }

  /** Resuming at an entry lists what follows it, less what it hides. */
  lemma EntriesAfter(t: Table, prefix: Bytes, delimiter: Bytes, marker: Bytes, entry: Bytes, name: Bytes)
    requires CleanTable(t) && entry in Entries(t, prefix, delimiter, marker)
    ensures name in Entries(t, prefix, delimiter, entry) <==>
            name in Entries(t, prefix, delimiter, marker) && After(delimiter, entry, name)
  {
    var from := EntryOfKey(t, prefix, delimiter, marker, entry);
    if name in Entries(t, prefix, delimiter, entry) {
      var key :| key in Keys(t, prefix, delimiter, entry) && NameOf(prefix, delimiter, key) == name;
      AfterByName(prefix, delimiter, entry, key);
      StillAfterMarker(prefix, delimiter, marker, from, key);
      assert key in Keys(t, prefix, delimiter, marker);
    }
    if name in Entries(t, prefix, delimiter, marker) && After(delimiter, entry, name) {
      var key :| key in Keys(t, prefix, delimiter, marker) && NameOf(prefix, delimiter, key) == name;
      AfterByName(prefix, delimiter, entry, key);
      assert key in Keys(t, prefix, delimiter, entry);
    }
  }

  /** In an ascending listing, what is after an entry is a final stretch of it. */
  lemma AfterIsSuffix(delimiter: Bytes, entries: seq<Bytes>, n: nat, i: nat)
    requires Ascending(entries) && 0 < n <= |entries| && entries[n - 1] != "" && i < |entries|
    ensures After(delimiter, entries[n - 1], entries[i]) <==> ResumeAt(delimiter, entries, n) <= i
  {
    var entry, m := entries[n - 1], ResumeAt(delimiter, entries, n);
    if i < n {
      LtIrreflexive(entry);
      if i < n - 1 {
        LtAsymmetric(entries[i], entry);
      }
    } else if EndsInDelimiter(delimiter, entry) && m <= i && HasPrefix(entries[i], entry) {
      PrefixBlockEnds(entry, entries[m], entries[i]);
    }
  }

  lemma InSuffix(entries: seq<Bytes>, m: nat, name: Bytes)
    requires m <= |entries|
    ensures name in entries[m..] <==> exists i :: m <= i < |entries| && entries[i] == name
  {
    if name in entries[m..] {
      var j :| 0 <= j < |entries[m..]| && entries[m..][j] == name;
      assert entries[m + j] == name;
    }
    if i :| m <= i < |entries| && entries[i] == name {
      assert entries[m..][i - m] == name;
    }
  }

  lemma NamesAfter(delimiter: Bytes, entries: seq<Bytes>, n: nat, name: Bytes)
    requires Ascending(entries) && 0 < n <= |entries| && entries[n - 1] != ""
    ensures name in entries[ResumeAt(delimiter, entries, n)..] <==>
            name in entries && After(delimiter, entries[n - 1], name)
  {
    InSuffix(entries, ResumeAt(delimiter, entries, n), name);
    forall i | 0 <= i < |entries| && entries[i] == name
      ensures After(delimiter, entries[n - 1], name) <==> ResumeAt(delimiter, entries, n) <= i
    {
      AfterIsSuffix(delimiter, entries, n, i);
    }
  }

  lemma SuffixAscends(entries: seq<Bytes>, m: nat)
    requires Ascending(entries) && m <= |entries|
    ensures Ascending(entries[m..])
  {
  }

  /** The listing from the token of a page of `n` entries. */
  lemma Resumes(t: Table, prefix: Bytes, delimiter: Bytes, marker: Bytes, n: nat)
    requires CleanTable(t) && 0 < n <= |Entries(t, prefix, delimiter, marker)|
    ensures
      var entries := Entries(t, prefix, delimiter, marker);
      Entries(t, prefix, delimiter, entries[n - 1]) == entries[ResumeAt(delimiter, entries, n)..]
  {
    var entries := Entries(t, prefix, delimiter, marker);
    var entry, m := entries[n - 1], ResumeAt(delimiter, entries, n);
    var _ := EntryOfKey(t, prefix, delimiter, marker, entry);
    var rest := Entries(t, prefix, delimiter, entry);
    forall name
      ensures name in rest <==> name in entries[m..]
    {
      EntriesAfter(t, prefix, delimiter, marker, entry, name);
      NamesAfter(delimiter, entries, n, name);
    }
    SuffixAscends(entries, m);
    AscendingUnique(rest, entries[m..]);
  }

  // ------------------------------------------------------------ following tokens

  function Next(r: Request, page: Page): Request {
    r.(continuationToken := page.nextContinuationToken)
  }

  /** The token moves on: a truncated page leaves strictly less to list. */
  lemma TokenAdvances(t: Table, r: Request)
    requires CleanTable(t) && PageOf(t, r).isTruncated
    ensures
      var entries := Entries(t, r.prefix, r.delimiter, Marker(r));
      var next := Next(r, PageOf(t, r));
      && Marker(next) == entries[Limit(r) - 1]
      && Entries(t, r.prefix, r.delimiter, Marker(next)) == entries[ResumeAt(r.delimiter, entries, Limit(r))..]
  {
    Resumes(t, r.prefix, r.delimiter, Marker(r), Limit(r));
    var _ := EntryOfKey(t, r.prefix, r.delimiter, Marker(r), PageOf(t, r).nextContinuationToken);
  }

  /** The pages a client gets, from the request it starts with. */
  function Follow(t: Table, r: Request): seq<Page>
    requires CleanTable(t)
    decreases |Entries(t, r.prefix, r.delimiter, Marker(r))|
  {
    var page := PageOf(t, r);
    if page.isTruncated then
      TokenAdvances(t, r);
      [page] + Follow(t, Next(r, page))
    else
      [page]
  }

  function AllObjects(pages: seq<Page>): seq<ObjectInfo> {
    if pages == [] then [] else pages[0].objects + AllObjects(pages[1..])
  }

  function AllPrefixes(pages: seq<Page>): seq<Bytes> {
    if pages == [] then [] else pages[0].commonPrefixes + AllPrefixes(pages[1..])
  }

  lemma {:induction false} ListConcat(t: Table, prefix: Bytes, delimiter: Bytes, a: seq<Bytes>, b: seq<Bytes>)
    ensures Objects(t, prefix, delimiter, a + b) == Objects(t, prefix, delimiter, a) + Objects(t, prefix, delimiter, b)
    ensures Prefixes(prefix, delimiter, a + b) == Prefixes(prefix, delimiter, a) + Prefixes(prefix, delimiter, b)
  {
    if b == [] {
      assert a + b == a;
    } else {
      var c, name := b[..|b| - 1], b[|b| - 1];
      assert b == c + [name] && a + b == (a + c) + [name];
      ListConcat(t, prefix, delimiter, a, c);
      ListSnoc(t, prefix, delimiter, a + c, name);
      ListSnoc(t, prefix, delimiter, c, name);
      var objects := if !Rolled(prefix, delimiter, name) && Pointer(name) in t then [t[Pointer(name)]] else [];
      var prefixes := if Rolled(prefix, delimiter, name) then [name] else [];
      Concat(Objects(t, prefix, delimiter, a), Objects(t, prefix, delimiter, c), objects);
      Concat(Prefixes(prefix, delimiter, a), Prefixes(prefix, delimiter, c), prefixes);
    }
  }

  /** Whether the pages together hold the entries: every object and every common
      prefix once, in order. */
  predicate AddUpTo(t: Table, r: Request, pages: seq<Page>, entries: seq<Bytes>) {
    && AllObjects(pages) == Objects(t, r.prefix, r.delimiter, entries)
    && AllPrefixes(pages) == Prefixes(r.prefix, r.delimiter, entries)
  }

  /** Pages that hold no more than `entries`, and all of them exactly if every cut
      is clean. */
  predicate CollectedFrom(t: Table, r: Request, pages: seq<Page>, entries: seq<Bytes>) {
    && (AddUpTo(t, r, pages, entries) <==> CleanCuts(r.delimiter, entries, Limit(r)))
    && |AllObjects(pages)| + |AllPrefixes(pages)| <= |entries|
  }

  /** From any start, following the tokens ends, and the pages add up to the whole
      listing exactly if no page ends on an object whose key ends in the delimiter
      while the next entry lies below that key. */
  lemma {:induction false} PagesAreTheListing(t: Table, r: Request)
    requires CleanTable(t)
    ensures CollectedFrom(t, r, Follow(t, r), Entries(t, r.prefix, r.delimiter, Marker(r)))
    decreases |Entries(t, r.prefix, r.delimiter, Marker(r))|
  {
    var page := PageOf(t, r);
    if page.isTruncated {
      var next := Next(r, page);
      var later := Entries(t, r.prefix, r.delimiter, Marker(next));
      TokenAdvances(t, r);
      PagesAreTheListing(t, next);
      assert CollectedFrom(t, r, Follow(t, next), later);
      Stitch(t, r, Follow(t, next), later);
    } else {
      LastPage(t, r);
    }
  }

  lemma LastPage(t: Table, r: Request)
    requires CleanTable(t) && !PageOf(t, r).isTruncated
    ensures CollectedFrom(t, r, [PageOf(t, r)], Entries(t, r.prefix, r.delimiter, Marker(r)))
  {
    var entries := Entries(t, r.prefix, r.delimiter, Marker(r));
    EntriesAreListed(t, r.prefix, r.delimiter, Marker(r));
    EntryCount(t, r.prefix, r.delimiter, entries);
    assert entries[..PageOf(t, r).keyCount] == entries;
    OnePage(PageOf(t, r));
  }

  lemma OnePage(page: Page)
    ensures AllObjects([page]) == page.objects && AllPrefixes([page]) == page.commonPrefixes
  {
    assert [page][1..] == [];
    assert page.objects + [] == page.objects;
    assert page.commonPrefixes + [] == page.commonPrefixes;
  }

  lemma Cancel<T>(a: seq<T>, b: seq<T>, c: seq<T>)
    ensures a + b == a + c <==> b == c
  {
    if a + b == a + c {
      assert b == (a + b)[|a|..] == (a + c)[|a|..] == c;
    }
  }

  /** Putting a page before what follows its token. */
  lemma Stitch(t: Table, r: Request, pages: seq<Page>, later: seq<Bytes>)
    requires CleanTable(t) && PageOf(t, r).isTruncated && CollectedFrom(t, r, pages, later)
    requires
      var entries := Entries(t, r.prefix, r.delimiter, Marker(r));
      later == entries[ResumeAt(r.delimiter, entries, Limit(r))..]
    ensures CollectedFrom(t, r, [PageOf(t, r)] + pages, Entries(t, r.prefix, r.delimiter, Marker(r)))
  {
    var entries, n := Entries(t, r.prefix, r.delimiter, Marker(r)), Limit(r);
    var front, back := entries[..n], entries[n..];
    assert ([PageOf(t, r)] + pages)[1..] == pages;
    assert entries == front + back;
    ListConcat(t, r.prefix, r.delimiter, front, back);
    EntriesAreListed(t, r.prefix, r.delimiter, Marker(r));
    EntryCount(t, r.prefix, r.delimiter, front);
    EntryCount(t, r.prefix, r.delimiter, entries);
    Cancel(Objects(t, r.prefix, r.delimiter, front), AllObjects(pages), Objects(t, r.prefix, r.delimiter, back));
    Cancel(Prefixes(r.prefix, r.delimiter, front), AllPrefixes(pages), Prefixes(r.prefix, r.delimiter, back));
  }

  // ------------------------------------------------- what the whole listing holds

  /** A read of the key finds an object. */
  predicate HasObject(t: Table, key: Bytes) {
    Lookup(t, key, "").Some? && !Lookup(t, key, "").value.isDeleteMarker
  }

  /** The key lies under the prefix, and the delimiter follows there first at `j`. */
  ghost predicate CutAt(prefix: Bytes, delimiter: Bytes, key: Bytes, j: nat) {
    && HasPrefix(key, prefix) && delimiter != ""
    && OccursAt(key[|prefix|..], delimiter, j)
    && forall i :: OccursAt(key[|prefix|..], delimiter, i) ==> j <= i
  }

  lemma {:induction false} InObjects(t: Table, prefix: Bytes, delimiter: Bytes, names: seq<Bytes>, info: ObjectInfo)
    ensures info in Objects(t, prefix, delimiter, names) <==>
            exists n :: n in names && !Rolled(prefix, delimiter, n) && Pointer(n) in t && t[Pointer(n)] == info
  {
    if names != [] {
      var front, last := names[..|names| - 1], names[|names| - 1];
      InObjects(t, prefix, delimiter, front, info);
      assert forall n :: n in names <==> n in front || n == last;
    }
  }

  lemma RolledIffCut(prefix: Bytes, delimiter: Bytes, key: Bytes)
    requires HasPrefix(key, prefix)
    ensures RolledUp(prefix, delimiter, key) <==> exists j: nat :: CutAt(prefix, delimiter, key, j)
    ensures forall j: nat :: CutAt(prefix, delimiter, key, j) ==>
              |prefix| + j + |delimiter| <= |key| && NameOf(prefix, delimiter, key) == key[..|prefix| + j + |delimiter|]
    ensures !RolledUp(prefix, delimiter, key) ==> NameOf(prefix, delimiter, key) == key
  {
    if RolledUp(prefix, delimiter, key) {
      var j := Index(key[|prefix|..], delimiter).value;
      assert CutAt(prefix, delimiter, key, j);
    }
  }

  /** A listing from the start holds exactly the keys under the prefix that a read finds
      an object for and in which no delimiter follows the prefix, with the record
      read. */
  lemma ListsEveryObject(t: Table, prefix: Bytes, delimiter: Bytes, info: ObjectInfo)
    requires Consistent(t) && CleanTable(t)
    ensures
      info in Objects(t, prefix, delimiter, Entries(t, prefix, delimiter, "")) <==>
      && HasObject(t, info.key) && Lookup(t, info.key, "") == Some(info)
      && HasPrefix(info.key, prefix) && !exists j: nat :: CutAt(prefix, delimiter, info.key, j)
  {
    var names := Entries(t, prefix, delimiter, "");
    InObjects(t, prefix, delimiter, names, info);
    if n :| n in names && !Rolled(prefix, delimiter, n) && Pointer(n) in t && t[Pointer(n)] == info {
      var key := EntryOfKey(t, prefix, delimiter, "", n);
      assert RecordOk(t, Pointer(n));
      NameIsListedUnderItself(prefix, delimiter, key);
      RolledIffCut(prefix, delimiter, n);
    }
    if HasObject(t, info.key) && Lookup(t, info.key, "") == Some(info) && HasPrefix(info.key, prefix) {
      RolledIffCut(prefix, delimiter, info.key);
      if !RolledUp(prefix, delimiter, info.key) {
        assert info.key in Keys(t, prefix, delimiter, "");
        assert NameOf(prefix, delimiter, info.key) in names;
      }
    }
  }

  /** And one common prefix for each beginning of such keys up to the first delimiter
      after the prefix. */
  lemma ListsEveryPrefix(t: Table, prefix: Bytes, delimiter: Bytes, name: Bytes)
    requires Consistent(t) && CleanTable(t)
    ensures
      name in Prefixes(prefix, delimiter, Entries(t, prefix, delimiter, "")) <==>
      exists key, j: nat :: HasObject(t, key) && CutAt(prefix, delimiter, key, j) && name == key[..|prefix| + j + |delimiter|]
    ensures Ascending(Prefixes(prefix, delimiter, Entries(t, prefix, delimiter, "")))
  {
    var names := Entries(t, prefix, delimiter, "");
    RolledNamesAreListed(prefix, delimiter, names);
    if name in names && Rolled(prefix, delimiter, name) {
      var key := EntryOfKey(t, prefix, delimiter, "", name);
      SameName(prefix, delimiter, key);
      RolledIffCut(prefix, delimiter, key);
      var j: nat :| CutAt(prefix, delimiter, key, j);
      assert HasObject(t, key) && name == key[..|prefix| + j + |delimiter|];
    }
    if key, j: nat :| HasObject(t, key) && CutAt(prefix, delimiter, key, j) && name == key[..|prefix| + j + |delimiter|] {
      RolledIffCut(prefix, delimiter, key);
      SameName(prefix, delimiter, key);
      assert key in Keys(t, prefix, delimiter, "");
    }
    PrefixesAscend(prefix, delimiter, names);
  }

  predicate KeysAscend(objects: seq<ObjectInfo>) {
    forall i, j :: 0 <= i < j < |objects| ==> Lt(objects[i].key, objects[j].key)
  }

  /** The objects of a listing come once each, in the order of their keys. */
  lemma {:induction false} ObjectsAscend(t: Table, prefix: Bytes, delimiter: Bytes, names: seq<Bytes>)
    requires Consistent(t) && Ascending(names)
    ensures KeysAscend(Objects(t, prefix, delimiter, names))
  {
    if names != [] {
      var front, last := names[..|names| - 1], names[|names| - 1];
      ObjectsAscend(t, prefix, delimiter, front);
      forall info | info in Objects(t, prefix, delimiter, front)
        ensures Lt(info.key, last)
      {
        InObjects(t, prefix, delimiter, front, info);
        var n :| n in front && Pointer(n) in t && t[Pointer(n)] == info;
        assert RecordOk(t, Pointer(n));
        var i :| 0 <= i < |front| && front[i] == n;
        assert Lt(names[i], names[|names| - 1]);
      }
      assert Pointer(last) in t ==> RecordOk(t, Pointer(last));
      var before, objects := Objects(t, prefix, delimiter, front), Objects(t, prefix, delimiter, names);
      forall i, j | 0 <= i < j < |objects|
        ensures Lt(objects[i].key, objects[j].key)
      {
        assert objects[i] == before[i] && before[i] in before;
        if j < |before| {
          assert objects[j] == before[j];
        } else {
          assert objects[j] == t[Pointer(last)];
        }
      }
    }
  }

  lemma {:induction false} PrefixesAscend(prefix: Bytes, delimiter: Bytes, names: seq<Bytes>)
    requires Ascending(names)
    ensures Ascending(Prefixes(prefix, delimiter, names))
  {
    if names != [] {
      var front, last := names[..|names| - 1], names[|names| - 1];
      PrefixesAscend(prefix, delimiter, front);
      forall p | p in Prefixes(prefix, delimiter, front)
        ensures Lt(p, last)
      {
        RolledNamesAreListed(prefix, delimiter, front);
        var i :| 0 <= i < |front| && front[i] == p;
        assert Lt(names[i], names[|names| - 1]);
      }
    }
  }

  // ------------------------------------------------------ the folder-marker case

  /** Only a listed object ending in the delimiter can hide anything; with a
      one-character delimiter the only such object is the prefix itself. */
  lemma ObjectEndingInDelimiter(prefix: Bytes, delimiter: Bytes, name: Bytes)
    requires |delimiter| == 1 && HasPrefix(name, prefix) && EndsInDelimiter(delimiter, name)
    ensures RolledUp(prefix, delimiter, name) || name == prefix
  {
    var rest := name[|prefix|..];
    if rest != [] {
      assert rest[|rest| - 1..] == name[|name| - 1..];
      assert OccursAt(rest, delimiter, |rest| - 1);
    }
  }

  /** Below a rolled-up prefix there is no other entry. */
  lemma NothingBelowRolled(prefix: Bytes, delimiter: Bytes, a: Bytes, b: Bytes)
    requires HasPrefix(a, prefix) && HasPrefix(b, prefix) && RolledUp(prefix, delimiter, a)
    requires NameOf(prefix, delimiter, a) == a && NameOf(prefix, delimiter, b) == b
    ensures HasPrefix(b, a) <==> a == b
  {
    ListedUnder(prefix, delimiter, a, b);
    if a == b {
      assert b[..|a|] == a;
    }
  }

  lemma {:induction false} CleanIfRolled(prefix: Bytes, delimiter: Bytes, entries: seq<Bytes>, n: nat)
    requires n > 0 && Ascending(entries)
    requires forall e :: e in entries ==> HasPrefix(e, prefix) && NameOf(prefix, delimiter, e) == e
    requires forall i :: n - 1 <= i < |entries| && EndsInDelimiter(delimiter, entries[i]) ==> RolledUp(prefix, delimiter, entries[i])
    ensures CleanCuts(delimiter, entries, n)
  {
    if n < |entries| {
      SuffixAscends(entries, n);
      CleanIfRolled(prefix, delimiter, entries[n..], n);
      if Hides(delimiter, entries, n) {
        NothingBelowRolled(prefix, delimiter, entries[n - 1], entries[n]);
        LtIrreflexive(entries[n]);
      }
    }
  }

  lemma EntriesAreNames(t: Table, r: Request)
    requires CleanTable(t)
    ensures forall e :: e in Entries(t, r.prefix, r.delimiter, Marker(r)) ==>
              HasPrefix(e, r.prefix) && NameOf(r.prefix, r.delimiter, e) == e
  {
    forall e | e in Entries(t, r.prefix, r.delimiter, Marker(r))
      ensures HasPrefix(e, r.prefix) && NameOf(r.prefix, r.delimiter, e) == e
    {
      var _ := EntryOfKey(t, r.prefix, r.delimiter, Marker(r), e);
    }
  }

  /** If no listed object's key ends in the delimiter, nothing is ever missed; without
      a delimiter none does. */
  lemma NothingHidden(t: Table, r: Request)
    requires CleanTable(t)
    requires forall e :: e in Entries(t, r.prefix, r.delimiter, Marker(r)) && EndsInDelimiter(r.delimiter, e) ==>
               Rolled(r.prefix, r.delimiter, e)
    ensures AddUpTo(t, r, Follow(t, r), Entries(t, r.prefix, r.delimiter, Marker(r)))
  {
    PagesAreTheListing(t, r);
    EntriesAreNames(t, r);
    CleanIfRolled(r.prefix, r.delimiter, Entries(t, r.prefix, r.delimiter, Marker(r)), Limit(r));
  }

  /** With a one-character delimiter, following the tokens misses part of a listing
      exactly if the prefix ends in the delimiter, an object's key is the prefix
      itself, pages hold one entry, and there is another entry. */
  lemma OnlyFolderMarkersHide(t: Table, r: Request)
    requires CleanTable(t) && |r.delimiter| == 1
    ensures
      var entries := Entries(t, r.prefix, r.delimiter, Marker(r));
      AddUpTo(t, r, Follow(t, r), entries) <==>
      !(Limit(r) == 1 && |entries| > 1 && HasSuffix(r.prefix, r.delimiter) && entries[0] == r.prefix)
  {
    var entries, n := Entries(t, r.prefix, r.delimiter, Marker(r)), Limit(r);
    PagesAreTheListing(t, r);
    EntriesAreNames(t, r);
    forall i | 0 < i < |entries|
      ensures entries[i] != r.prefix
    {
      PrefixIsLe(entries[0], r.prefix);
      LeLtTransitive(r.prefix, entries[0], entries[i]);
      LtIrreflexive(r.prefix);
    }
    if n == 1 && n < |entries| && entries[0] == r.prefix && HasSuffix(r.prefix, r.delimiter) {
      assert Hides(r.delimiter, entries, 1);
    } else if n < |entries| {
      forall i | n - 1 <= i < |entries| && EndsInDelimiter(r.delimiter, entries[i])
        ensures RolledUp(r.prefix, r.delimiter, entries[i])
      {
        ObjectEndingInDelimiter(r.prefix, r.delimiter, entries[i]);
      }
      CleanIfRolled(r.prefix, r.delimiter, entries, n);
    }
  }

  function Stub(key: Bytes): ObjectInfo {
    ObjectInfo(key, 0, Digest(""), "", 0, "", true, None, false, "blob")
  }

  function Folder(): Table {
    map[Pointer("d/") := Stub("d/"), Pointer("d/a") := Stub("d/a")]
  }

  lemma FolderTable()
    ensures Consistent(Folder()) && CleanTable(Folder())
  {
    forall rk | rk in Folder()
      ensures RecordOk(Folder(), rk)
    {
    }
  }

  lemma NotRolledUp(prefix: Bytes, c: char, s: Bytes)
    requires c !in s
    ensures HasPrefix(prefix + s, prefix) && NameOf(prefix, [c], prefix + s) == prefix + s
  {
    assert (prefix + s)[|prefix|..] == s;
    FoundIsIn(s, c);
  }

  lemma FoundIsIn(s: Bytes, c: char)
    ensures Index(s, [c]).Some? ==> c in s
  {
    var i := Index(s, [c]);
    if i.Some? {
      assert s[i.value..i.value + 1][0] == s[i.value];
    }
  }

  lemma TwoEntries(t: Table, prefix: Bytes, delimiter: Bytes, s: Bytes)
    requires s != "" && Keys(t, prefix, delimiter, "") == {prefix, prefix + s}
    requires NameOf(prefix, delimiter, prefix) == prefix
    requires NameOf(prefix, delimiter, prefix + s) == prefix + s
    ensures Entries(t, prefix, delimiter, "") == [prefix, prefix + s]
  {
    var entries := Entries(t, prefix, delimiter, "");
    ProperPrefixIsLess(prefix, prefix + s);
    AscendingUnique(entries, [prefix, prefix + s]);
  }

  lemma FolderKeys()
    ensures Keys(Folder(), "d/", "/", "") == {"d/", "d/a"}
  {
    assert "d/a"[..2] == "d/" == "d/"[..2];
  }

  lemma FolderEntries()
    ensures Entries(Folder(), "d/", "/", "") == ["d/", "d/a"]
  {
    assert "d/" + "" == "d/" && "d/" + "a" == "d/a";
    NotRolledUp("d/", '/', "");
    NotRolledUp("d/", '/', "a");
    FolderKeys();
    TwoEntries(Folder(), "d/", "/", "a");
  }

  /** Listing "d/" one entry at a time, with an object "d/" and an object "d/a":
      the first page ends on "d/", and the second is empty. */
  lemma FolderMarkerHidesItsFolder()
    ensures
      var r := Request("d/", "/", "", "", 1);
      && Consistent(Folder()) && CleanTable(Folder())
      && Entries(Folder(), "d/", "/", "") == ["d/", "d/a"]
      && !AddUpTo(Folder(), r, Follow(Folder(), r), ["d/", "d/a"])
  {
    FolderTable();
    FolderEntries();
    OnlyFolderMarkersHide(Folder(), Request("d/", "/", "", "", 1));
  }
}
