/** Rolling keys up at a delimiter: what both listings show in place of a key,
    and why skipping past a rolled-up prefix loses nothing. */
module RollUp {
  import opened ByteOrder

  predicate OccursAt(s: Bytes, d: Bytes, j: int) {
    0 <= j && j + |d| <= |s| && s[j..j + |d|] == d
  }

  /** The first position of `d` in `s`. */
  function Index(s: Bytes, d: Bytes): (r: Option<nat>)
    ensures r.Some? ==> OccursAt(s, d, r.value)
    ensures forall j :: OccursAt(s, d, j) ==> r.Some? && r.value <= j
    decreases |s|
  {
    if OccursAt(s, d, 0) then
      Some(0)
    else if s == [] then
      None
    else
      var r := Index(s[1..], d);
      assert forall j :: OccursAt(s, d, j) ==> j == 0 || OccursAt(s[1..], d, j - 1) by {
        forall j | OccursAt(s, d, j) && j != 0
          ensures OccursAt(s[1..], d, j - 1)
        {
          OccursLater(s, d, j);
        }
      }
      if r.Some? then
        OccursLater(s, d, r.value + 1);
        Some(r.value + 1)
      else
        None
  }

  lemma OccursLater(s: Bytes, d: Bytes, j: int)
    requires s != [] && 1 <= j
    ensures OccursAt(s, d, j) <==> OccursAt(s[1..], d, j - 1)
  {
    if j + |d| <= |s| {
      var x, tail := s[j..j + |d|], s[1..];
      var y := tail[j - 1..j - 1 + |d|];
      assert forall k :: 0 <= k < |d| ==> x[k] == s[j + k] && y[k] == tail[j - 1 + k];
      assert x == y;
    }
  }

  /** The name a key is listed under: the key itself, or, if a delimiter follows
      the prefix, the key cut off after the first one. */
  function NameOf(prefix: Bytes, delimiter: Bytes, key: Bytes): (name: Bytes)
    requires HasPrefix(key, prefix)
    ensures HasPrefix(key, name) && HasPrefix(name, prefix)
  {
    if delimiter == "" then
      key
    else
      match Index(key[|prefix|..], delimiter)
      case None => key
      case Some(i) =>
        assert key[..|prefix| + i + |delimiter|][..|prefix|] == prefix;
        key[..|prefix| + i + |delimiter|]
  }

  /** A name that stands for every key below it. */
  predicate RolledUp(prefix: Bytes, delimiter: Bytes, name: Bytes)
    requires HasPrefix(name, prefix)
  {
    delimiter != "" && Index(name[|prefix|..], delimiter).Some?
  }

  /** A key is listed under a rolled-up name exactly if it starts with it, and under
      any other name only if it is that name. */
  lemma ListedUnder(prefix: Bytes, delimiter: Bytes, name: Bytes, key: Bytes)
    requires HasPrefix(key, prefix) && HasPrefix(name, prefix)
    requires NameOf(prefix, delimiter, name) == name
    ensures NameOf(prefix, delimiter, key) == name <==>
            if RolledUp(prefix, delimiter, name) then HasPrefix(key, name) else key == name
  {
    var n := |prefix|;
    var rest, head := key[n..], name[n..];
    if RolledUp(prefix, delimiter, name) && HasPrefix(key, name) {
      assert head == rest[..|head|];
      SameFirstOccurrence(rest, head, delimiter);
    }
    if NameOf(prefix, delimiter, key) == name && !RolledUp(prefix, delimiter, name) && key != name {
      assert head == rest[..|head|];
      var j := Index(rest, delimiter).value;
      assert head[j..j + |delimiter|] == rest[j..j + |delimiter|];
      assert OccursAt(head, delimiter, j);
    }
  }

  lemma SameFirstOccurrence(s: Bytes, head: Bytes, d: Bytes)
    requires HasPrefix(s, head) && Index(head, d).Some?
    ensures Index(s, d) == Index(head, d)
  {
    var i := Index(head, d).value;
    SliceOfPrefix(s, head, i, i + |d|);
    assert OccursAt(s, d, i);
    var j := Index(s, d).value;
    SliceOfPrefix(s, head, j, j + |d|);
    assert OccursAt(head, d, j);
  }

  lemma SliceOfPrefix(s: Bytes, head: Bytes, i: nat, j: nat)
    requires HasPrefix(s, head) && i <= j <= |head|
    ensures s[i..j] == head[i..j]
  {
    assert s[..|head|][i..j] == s[i..j];
  }

  lemma NameIsListedUnderItself(prefix: Bytes, delimiter: Bytes, key: Bytes)
    requires HasPrefix(key, prefix)
    ensures
      var name := NameOf(prefix, delimiter, key);
      && NameOf(prefix, delimiter, name) == name
      && (name != key ==> RolledUp(prefix, delimiter, name))
      && (RolledUp(prefix, delimiter, name) ==> delimiter != "" && HasSuffix(name, delimiter))
  {
    var n, name := |prefix|, NameOf(prefix, delimiter, key);
    if delimiter != "" {
      match Index(key[n..], delimiter)
      case None =>
      case Some(i) =>
        var head := key[n..][..i + |delimiter|];
        FirstStaysFirst(key[n..], delimiter, i);
        assert name[n..] == head && name[|name| - |delimiter|..] == head[i..] == delimiter;
    }
  }

  /** A string cut off after the first delimiter. */
  lemma FirstStaysFirst(s: Bytes, d: Bytes, i: nat)
    requires Index(s, d) == Some(i)
    ensures var head := s[..i + |d|]; Index(head, d) == Some(i) && head[i..] == d
  {
    var head := s[..i + |d|];
    assert head[i..i + |d|] == s[i..i + |d|];
    assert OccursAt(head, d, i);
    SameFirstOccurrence(s, head, d);
  }

  lemma PrefixesNest(s: Bytes, p: Bytes, q: Bytes)
    requires HasPrefix(s, p) && HasPrefix(s, q) && |p| <= |q|
    ensures HasPrefix(q, p)
  {
    assert q[..|p|] == s[..|p|];
  }

  lemma PrefixIsLe(s: Bytes, p: Bytes)
    requires HasPrefix(s, p)
    ensures Le(p, s)
  {
    if s != p {
      ProperPrefixIsLess(p, s);
    }
  }

  /** Names come in the order of their keys. */
  lemma NamesInOrder(prefix: Bytes, delimiter: Bytes, a: Bytes, b: Bytes)
    requires HasPrefix(a, prefix) && HasPrefix(b, prefix) && Lt(a, b)
    ensures Le(NameOf(prefix, delimiter, a), NameOf(prefix, delimiter, b))
  {
    var na, nb := NameOf(prefix, delimiter, a), NameOf(prefix, delimiter, b);
    NameIsListedUnderItself(prefix, delimiter, b);
    LtTotal(na, nb);
    if Lt(nb, na) {
      PrefixIsLe(a, na);
      LeLtTransitive(nb, na, a);
      if HasPrefix(a, nb) {
        ListedUnder(prefix, delimiter, nb, a);
        NameIsListedUnderItself(prefix, delimiter, a);
        if !RolledUp(prefix, delimiter, nb) {
          LtAsymmetric(a, b);
        }
        LtIrreflexive(na);
      } else {
        LtIrreflexive(nb);
        PrefixBlockEnds(nb, a, b);
      }
    }
  }

  function Names(prefix: Bytes, delimiter: Bytes, keys: set<Bytes>): (names: set<Bytes>)
    requires forall k :: k in keys ==> HasPrefix(k, prefix)
    ensures forall n :: n in names <==> exists k :: k in keys && NameOf(prefix, delimiter, k) == n
  {
    set k | k in keys :: NameOf(prefix, delimiter, k)
  }

  /** The elements of a set in ascending order. */
  function Ordered(s: set<Bytes>): (r: seq<Bytes>)
    ensures Ascending(r) && forall x :: x in r <==> x in s
    decreases |s|
  {
    if s == {} then
      []
    else
      var m := First(s);
      var rest := Ordered(s - {m});
      assert forall x :: x in s <==> x == m || x in s - {m};
      assert forall i :: 0 <= i < |rest| ==> rest[i] in rest;
      [m] + rest
  }

  lemma {:induction false} AscendingUnique(a: seq<Bytes>, b: seq<Bytes>)
    requires Ascending(a) && Ascending(b)
    requires forall x :: x in a <==> x in b
    ensures a == b
  {
    HasMember(a);
    HasMember(b);
    if a != [] {
      assert a[0] in a && a[0] in b;
      assert b[0] in b && b[0] in a;
      if a[0] != b[0] {
        var i :| 0 <= i < |a| && a[i] == b[0];
        var j :| 0 <= j < |b| && b[j] == a[0];
        LtAsymmetric(a[0], a[i]);
        assert false;
      }
      forall x
        ensures x in a[1..] <==> x in b[1..]
      {
        InTail(a, x);
        InTail(b, x);
      }
      AscendingUnique(a[1..], b[1..]);
    }
  }

  lemma HasMember(a: seq<Bytes>)
    ensures a != [] ==> exists x :: x in a
  {
    if a != [] {
      assert a[0] in a;
    }
  }

  lemma InTail(a: seq<Bytes>, x: Bytes)
    requires a != [] && Ascending(a)
    ensures x in a[1..] <==> x in a && x != a[0]
  {
    if x in a[1..] {
      var i :| 0 <= i < |a[1..]| && a[1..][i] == x;
      LtAsymmetric(a[0], a[i + 1]);
    }
  }

  /** Listing the first key of a set takes its name, and what is left are the names
      of the keys not listed under it. */
  lemma NextName(prefix: Bytes, delimiter: Bytes, keys: set<Bytes>, rest: set<Bytes>, key: Bytes)
    requires forall k :: k in keys ==> HasPrefix(k, prefix)
    requires key in keys && forall k :: k in keys ==> Le(key, k)
    requires forall k :: k in rest <==> k in keys && NameOf(prefix, delimiter, k) != NameOf(prefix, delimiter, key)
    ensures Ordered(Names(prefix, delimiter, keys))
         == [NameOf(prefix, delimiter, key)] + Ordered(Names(prefix, delimiter, rest))
  {
    var name, names := NameOf(prefix, delimiter, key), Names(prefix, delimiter, keys);
    assert name in names;
    forall n | n in names
      ensures Le(name, n)
    {
      var k :| k in keys && NameOf(prefix, delimiter, k) == n;
      if k != key {
        NamesInOrder(prefix, delimiter, key, k);
      }
    }
    if First(names) != name {
      LtAsymmetric(First(names), name);
    }
    forall n
      ensures n in names - {name} <==> n in Names(prefix, delimiter, rest)
    {
    }
    assert names - {name} == Names(prefix, delimiter, rest);
  }
}
