/** Byte strings and the bytewise order that bbolt sorts its keys by.

    A Go string is a sequence of bytes; it is modelled as a Dafny `string` whose
    characters stand for byte values. */
module ByteOrder {

  type Bytes = string

  const NUL: char := '\U{0000}'
  const MAX_BYTE: char := '\U{00ff}'

  datatype Option<+T> = None | Some(value: T)

  /** Object keys as the listings need them: no NUL (which separates the parts of
      a metadata key) and no 0xff (which never occurs in UTF-8). */
  ghost predicate CleanKey(s: Bytes) {
    forall i :: 0 <= i < |s| ==> NUL < s[i] < MAX_BYTE
  }

  predicate Lt(a: Bytes, b: Bytes) {
    b != [] && (a == [] || a[0] < b[0] || (a[0] == b[0] && Lt(a[1..], b[1..])))
  }

  predicate Le(a: Bytes, b: Bytes) {
    a == b || Lt(a, b)
  }

  lemma Concat<T>(a: seq<T>, b: seq<T>, c: seq<T>)
    ensures a + b + c == a + (b + c)
  {
  }

  predicate HasPrefix(s: Bytes, p: Bytes) {
    |p| <= |s| && s[..|p|] == p
  }

  predicate HasSuffix(s: Bytes, p: Bytes) {
    |p| <= |s| && s[|s| - |p|..] == p
  }

  lemma {:induction false} LtIrreflexive(a: Bytes)
    ensures !Lt(a, a)
  {
    if a != [] {
      LtIrreflexive(a[1..]);
    }
  }

  lemma {:induction false} LtTransitive(a: Bytes, b: Bytes, c: Bytes)
    requires Lt(a, b) && Lt(b, c)
    ensures Lt(a, c)
  {
    if a != [] && a[0] == b[0] && b[0] == c[0] {
      LtTransitive(a[1..], b[1..], c[1..]);
    }
  }

  lemma {:induction false} LtTotal(a: Bytes, b: Bytes)
    ensures a == b || Lt(a, b) || Lt(b, a)
  {
    if a != [] && b != [] && a[0] == b[0] {
      LtTotal(a[1..], b[1..]);
      assert a[1..] == b[1..] ==> a == b by {
        assert a == [a[0]] + a[1..] && b == [b[0]] + b[1..];
      }
    }
  }

  lemma LtAsymmetric(a: Bytes, b: Bytes)
    requires Lt(a, b)
    ensures !Lt(b, a) && a != b
  {
    if Lt(b, a) {
      LtTransitive(a, b, a);
    }
    LtIrreflexive(a);
  }

  lemma LeLtTransitive(a: Bytes, b: Bytes, c: Bytes)
    requires (Le(a, b) && Lt(b, c)) || (Lt(a, b) && Le(b, c))
    ensures Lt(a, c)
  {
    if a != b && b != c {
      LtTransitive(a, b, c);
    }
  }

  /** Appending the same prefix to both sides keeps their order. */
  lemma {:induction false} LtSamePrefix(p: Bytes, a: Bytes, b: Bytes)
    ensures Lt(p + a, p + b) == Lt(a, b)
  {
    if p == [] {
      assert p + a == a && p + b == b;
    } else {
      assert (p + a)[1..] == p[1..] + a && (p + b)[1..] == p[1..] + b;
      LtSamePrefix(p[1..], a, b);
    }
  }

  lemma ProperPrefixIsLess(p: Bytes, s: Bytes)
    requires HasPrefix(s, p) && s != p
    ensures Lt(p, s)
  {
    LtSamePrefix(p, [], s[|p|..]);
    assert p + [] == p && p + s[|p|..] == s;
  }

  /** The skip-scan's target: `p + "\xff"` sorts after exactly the strings that
      start with `p` or sort below it, when those strings hold no 0xff. */
  lemma {:induction false} SkipPast(p: Bytes, s: Bytes)
    requires forall i :: 0 <= i < |s| ==> s[i] < MAX_BYTE
    ensures Lt(s, p + [MAX_BYTE]) == (HasPrefix(s, p) || Lt(s, p))
  {
    var q := p + [MAX_BYTE];
    if p == [] {
      assert HasPrefix(s, p);
      assert s == [] || s[0] < q[0];
    } else if s == [] {
    } else {
      assert q[1..] == p[1..] + [MAX_BYTE];
      SkipPast(p[1..], s[1..]);
      if s[0] == p[0] {
        HasPrefixTail(s, p);
      }
    }
  }

  lemma AtOrPast(p: Bytes, s: Bytes)
    requires CleanKey(s)
    ensures Le(p + [MAX_BYTE], s) <==> Lt(p, s) && !HasPrefix(s, p)
  {
    var q := p + [MAX_BYTE];
    assert q[|p|] == MAX_BYTE;
    assert s != q;
    SkipPast(p, s);
    LtTotal(q, s);
    LtTotal(p, s);
    if Lt(q, s) {
      LtAsymmetric(q, s);
    }
    if Lt(p, s) {
      LtAsymmetric(p, s);
    }
  }

  lemma HasPrefixTail(s: Bytes, p: Bytes)
    requires s != [] && p != [] && s[0] == p[0]
    ensures HasPrefix(s, p) == HasPrefix(s[1..], p[1..])
  {
    assert s == [s[0]] + s[1..] && p == [p[0]] + p[1..];
    if |p| <= |s| {
      assert s[..|p|] == [s[0]] + s[1..][..|p| - 1];
    }
  }

  lemma HasPrefixTransitive(s: Bytes, p: Bytes, q: Bytes)
    requires HasPrefix(s, p) && HasPrefix(p, q)
    ensures HasPrefix(s, q)
  {
    assert s[..|q|] == s[..|p|][..|q|];
  }

  /** Once a scan that started at or after `p` meets a string without the prefix
      `p`, no later string has it: the listing loops may stop there. */
  lemma {:induction false} PrefixBlockEnds(p: Bytes, a: Bytes, b: Bytes)
    requires Le(p, a) && !HasPrefix(a, p) && Lt(a, b)
    ensures !HasPrefix(b, p)
  {
    if HasPrefix(b, p) && p != [] {
      assert b[0] == b[..|p|][0] == p[0];
      HasPrefixTail(b, p);
      assert a != [];
      assert a[0] == p[0] by {
        assert a != p;
        assert Lt(p, a);
      }
      HasPrefixTail(a, p);
      PrefixBlockEnds(p[1..], a[1..], b[1..]);
    }
  }

  ghost predicate Ascending(s: seq<Bytes>) {
    forall i, j :: 0 <= i < j < |s| ==> Lt(s[i], s[j])
  }

  /** The first key of a non-empty set of keys, where a bbolt cursor lands. */
  function First(s: set<Bytes>): (m: Bytes)
    requires s != {}
    ensures m in s && forall x :: x in s ==> Le(m, x)
  {
    FirstExists(s);
    var m :| m in s && forall x :: x in s ==> Le(m, x);
    assert forall n :: n in s && (forall x :: x in s ==> Le(n, x)) ==> n == m by {
      forall n | n in s && (forall x :: x in s ==> Le(n, x))
        ensures n == m
      {
        if n != m {
          LtAsymmetric(n, m);
        }
      }
    }
    m
  }

  lemma FirstExists(s: set<Bytes>)
    requires s != {}
    ensures exists m :: m in s && forall x :: x in s ==> Le(m, x)
  {
    var y :| y in s;
    var rest := s - {y};
    if rest == {} {
      assert s == {y};
    } else {
      FirstExists(rest);
      var m :| m in rest && forall x :: x in rest ==> Le(m, x);
      LtTotal(m, y);
      if Lt(y, m) {
        forall x | x in s
          ensures Le(y, x)
        {
          if x != y {
            LeLtTransitive(y, m, x);
          }
        }
      } else {
        assert forall x :: x in s ==> x == y || x in rest;
      }
    }
  }
}
