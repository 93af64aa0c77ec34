/** Following the tokens of a listing while the bucket changes: each page is of the
    bucket as it is when the page is asked for. */
module ChangingPages {
  import opened ByteOrder
  import opened Records
  import opened RollUp
  import opened Listing
  import P = ListingPages

  /** The entries a page shows. */
  function PageNames(t: Table, r: Request): (names: seq<Bytes>)
    ensures Ascending(names) && |names| <= Limit(r)
    ensures PageOf(t, r).isTruncated ==> names != [] && PageOf(t, r).nextContinuationToken == names[|names| - 1]
    ensures PageOf(t, r).objects == Objects(t, r.prefix, r.delimiter, names)
    ensures PageOf(t, r).commonPrefixes == Prefixes(r.prefix, r.delimiter, names)
  {
    var all := Entries(t, r.prefix, r.delimiter, Marker(r));
    all[..if |all| < Limit(r) then |all| else Limit(r)]
  }

  /** The entries of the pages of one bucket after another. */
  function Shown(ts: seq<Table>, r: Request): seq<Bytes>
    decreases |ts|
  {
    if ts == [] then
      []
    else
      PageNames(ts[0], r) + if PageOf(ts[0], r).isTruncated then Shown(ts[1..], P.Next(r, PageOf(ts[0], r))) else []
  }

  /** The tokens are followed to a page that is not truncated. */
  predicate Finishes(ts: seq<Table>, r: Request)
    decreases |ts|
  {
    ts != [] && (PageOf(ts[0], r).isTruncated ==> Finishes(ts[1..], P.Next(r, PageOf(ts[0], r))))
  }

  ghost predicate AllClean(ts: seq<Table>) {
    forall i :: 0 <= i < |ts| ==> CleanTable(ts[i])
  }

  /** A marker that was an entry of the listing. */
  predicate WasListed(r: Request, marker: Bytes) {
    marker != "" && HasPrefix(marker, r.prefix) && NameOf(r.prefix, r.delimiter, marker) == marker
  }

  /** What a page shows comes after its marker, and was there. */
  lemma ShownOnPage(t: Table, r: Request, name: Bytes) returns (key: Bytes)
    requires CleanTable(t) && name in PageNames(t, r)
    ensures WasListed(r, name) && (WasListed(r, Marker(r)) ==> After(r.delimiter, Marker(r), name))
    ensures Listable(t, key) && HasPrefix(key, r.prefix) && NameOf(r.prefix, r.delimiter, key) == name
  {
    key := EntryOfKey(t, r.prefix, r.delimiter, Marker(r), name);
    if WasListed(r, Marker(r)) {
      P.AfterByName(r.prefix, r.delimiter, Marker(r), key);
    }
  }

  lemma NextMarker(t: Table, r: Request)
    requires CleanTable(t) && PageOf(t, r).isTruncated
    ensures
      var next := P.Next(r, PageOf(t, r));
      var names := PageNames(t, r);
      && Marker(next) == names[|names| - 1] && WasListed(next, Marker(next))
      && next.prefix == r.prefix && next.delimiter == r.delimiter && Limit(next) == Limit(r)
  {
    var names := PageNames(t, r);
    var _ := ShownOnPage(t, r, names[|names| - 1]);
  }

  lemma InFront(s: seq<Bytes>, n: nat, i: nat)
    requires i < n <= |s|
    ensures s[i] in s[..n]
  {
    assert s[..n][i] == s[i];
  }

  lemma ShownHereOrLater(ts: seq<Table>, r: Request, name: Bytes)
    requires name in Shown(ts, r)
    ensures ts != []
    ensures name in PageNames(ts[0], r) ||
            (PageOf(ts[0], r).isTruncated && name in Shown(ts[1..], P.Next(r, PageOf(ts[0], r))))
  {
  }

  lemma AscendingConcat(a: seq<Bytes>, b: seq<Bytes>)
    requires Ascending(a) && Ascending(b) && a != [] && forall x :: x in b ==> Lt(a[|a| - 1], x)
    ensures Ascending(a + b)
  {
    forall i, j | 0 <= i < |a| && 0 <= j < |b|
      ensures Lt(a[i], b[j])
    {
      assert b[j] in b;
      LeLtTransitive(a[i], a[|a| - 1], b[j]);
    }
  }

  /** Everything shown later comes after an entry shown before. */
  lemma {:induction false} ShownAfter(ts: seq<Table>, r: Request, entry: Bytes, name: Bytes)
    requires AllClean(ts) && WasListed(r, entry) && WasListed(r, Marker(r)) && name in Shown(ts, r)
    requires Marker(r) == entry || After(r.delimiter, entry, Marker(r))
    ensures After(r.delimiter, entry, name)
    decreases |ts|
  {
    var here := PageNames(ts[0], r);
    forall n | n in here
      ensures After(r.delimiter, entry, n)
    {
      var _ := ShownOnPage(ts[0], r, n);
      if Marker(r) != entry {
        P.StillAfterMarker(r.prefix, r.delimiter, entry, Marker(r), n);
      }
    }
    ShownHereOrLater(ts, r, name);
    if name !in here {
      NextMarker(ts[0], r);
      assert here[|here| - 1] in here;
      ShownAfter(ts[1..], P.Next(r, PageOf(ts[0], r)), entry, name);
    }
  }

  /** Whatever happens to the bucket between pages: entries ascend over all pages, so
      that none is shown twice. */
  lemma {:induction false} NoneIsShownTwice(ts: seq<Table>, r: Request)
    requires AllClean(ts)
    ensures Ascending(Shown(ts, r))
    decreases |ts|
  {
    if ts != [] && PageOf(ts[0], r).isTruncated {
      var here, next := PageNames(ts[0], r), P.Next(r, PageOf(ts[0], r));
      var last, later := here[|here| - 1], Shown(ts[1..], next);
      NextMarker(ts[0], r);
      NoneIsShownTwice(ts[1..], next);
      forall name | name in later
        ensures Lt(last, name)
      {
        ShownAfter(ts[1..], next, last, name);
      }
      AscendingConcat(here, later);
    }
  }

  /** A page ends on an entry that hides the key before the key's own entry is shown:
      an object whose key ends in the delimiter. */
  predicate HiddenBetween(ts: seq<Table>, r: Request, key: Bytes)
    requires HasPrefix(key, r.prefix)
    decreases |ts|
  {
    && ts != [] && NameOf(r.prefix, r.delimiter, key) !in PageNames(ts[0], r) && PageOf(ts[0], r).isTruncated
    && var token := PageOf(ts[0], r).nextContinuationToken;
       || (EndsInDelimiter(r.delimiter, token) && HasPrefix(key, token))
       || HiddenBetween(ts[1..], P.Next(r, PageOf(ts[0], r)), key)
  }

  /** The entry of a key that is listable and not on the page: the page is truncated
      before it. */
  lemma BeyondThePage(t: Table, r: Request, key: Bytes)
    requires CleanTable(t) && Listable(t, key) && HasPrefix(key, r.prefix) && After(r.delimiter, Marker(r), key)
    requires NameOf(r.prefix, r.delimiter, key) !in PageNames(t, r)
    ensures PageOf(t, r).isTruncated
    ensures
      var token, name := PageOf(t, r).nextContinuationToken, NameOf(r.prefix, r.delimiter, key);
      && Lt(token, name)
      && (After(r.delimiter, token, key) <==> After(r.delimiter, token, name))
      && (After(r.delimiter, token, key) <==> !(EndsInDelimiter(r.delimiter, token) && HasPrefix(key, token)))
  {
    var all, name := Entries(t, r.prefix, r.delimiter, Marker(r)), NameOf(r.prefix, r.delimiter, key);
    assert key in Keys(t, r.prefix, r.delimiter, Marker(r)) && name in all;
    var i :| 0 <= i < |all| && all[i] == name;
    var n := if |all| < Limit(r) then |all| else Limit(r);
    if i < n {
      InFront(all, n, i);
    }
    NextMarker(t, r);
    var token := PageOf(t, r).nextContinuationToken;
    P.AfterByName(r.prefix, r.delimiter, token, key);
    PrefixIsLe(key, name);
    LeLtTransitive(token, name, key);
  }

  /** A key that is listable throughout is shown, once, under its entry, unless a page
      ends on an object whose key ends in the delimiter and below which it lies. */
  lemma {:induction false} PresentThroughoutIsShown(ts: seq<Table>, r: Request, key: Bytes)
    requires AllClean(ts) && Finishes(ts, r) && forall i :: 0 <= i < |ts| ==> Listable(ts[i], key)
    requires HasPrefix(key, r.prefix) && After(r.delimiter, Marker(r), key)
    ensures NameOf(r.prefix, r.delimiter, key) in Shown(ts, r) <==> !HiddenBetween(ts, r, key)
    decreases |ts|
  {
    var name := NameOf(r.prefix, r.delimiter, key);
    if name !in PageNames(ts[0], r) {
      BeyondThePage(ts[0], r, key);
      NextMarker(ts[0], r);
      var next := P.Next(r, PageOf(ts[0], r));
      if After(r.delimiter, Marker(next), key) {
        PresentThroughoutIsShown(ts[1..], next, key);
      } else if name in Shown(ts[1..], next) {
        ShownAfter(ts[1..], next, Marker(next), name);
      }
    }
  }

  /** An entry stands for a key that is listable. */
  ghost predicate StandsFor(t: Table, prefix: Bytes, delimiter: Bytes, name: Bytes) {
    exists key :: Listable(t, key) && HasPrefix(key, prefix) && NameOf(prefix, delimiter, key) == name
  }

  /** What is shown was there when its page was made. */
  lemma {:induction false} ShownWasThere(ts: seq<Table>, r: Request, name: Bytes)
    requires AllClean(ts) && name in Shown(ts, r)
    ensures exists i :: 0 <= i < |ts| && StandsFor(ts[i], r.prefix, r.delimiter, name)
    decreases |ts|
  {
    ShownHereOrLater(ts, r, name);
    if name in PageNames(ts[0], r) {
      var key := ShownOnPage(ts[0], r, name);
      assert StandsFor(ts[0], r.prefix, r.delimiter, name);
    } else {
      NextMarker(ts[0], r);
      ShownWasThere(ts[1..], P.Next(r, PageOf(ts[0], r)), name);
      var i :| 0 <= i < |ts[1..]| && StandsFor(ts[1..][i], r.prefix, r.delimiter, name);
      assert StandsFor(ts[i + 1], r.prefix, r.delimiter, name);
    }
  }
}
