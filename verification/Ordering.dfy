/** The lexicographic byte order of ordered tables, and sorted lists. */
module Ordering {
  import opened Common

  /** `a` sorts strictly before `b`, as byte strings compare in ordered maps. */
  predicate Less(a: Bytes, b: Bytes)
    decreases |a|
  {
    b != [] && (a == [] || a[0] < b[0] || (a[0] == b[0] && Less(a[1..], b[1..])))
  }

  lemma {:induction false} LessAsymmetric(a: Bytes, b: Bytes)
    requires Less(a, b)
    ensures a != b && !Less(b, a)
    decreases |a|
  {
    if a != [] && a[0] == b[0] {
      LessAsymmetric(a[1..], b[1..]);
    }
  }

  lemma {:induction false} LessTotal(a: Bytes, b: Bytes)
    requires a != b
    ensures Less(a, b) || Less(b, a)
    decreases |a|
  {
    if a != [] && b != [] && a[0] == b[0] {
      assert a == [a[0]] + a[1..] && b == [b[0]] + b[1..];
      LessTotal(a[1..], b[1..]);
    }
  }

  lemma {:induction false} LessTransitive(a: Bytes, b: Bytes, c: Bytes)
    requires Less(a, b) && Less(b, c)
    ensures Less(a, c)
    decreases |a|
  {
    if a != [] && a[0] == b[0] == c[0] {
      LessTransitive(a[1..], b[1..], c[1..]);
    }
  }

  /** A shared prefix does not matter. */
  lemma {:induction false} LessAfterPrefix(p: Bytes, a: Bytes, b: Bytes)
    ensures Less(p + a, p + b) <==> Less(a, b)
    decreases |p|
  {
    if p == [] {
      assert p + a == a && p + b == b;
    } else {
      assert (p + a)[1..] == p[1..] + a && (p + b)[1..] == p[1..] + b;
      LessAfterPrefix(p[1..], a, b);
    }
  }

  predicate Sorted<T>(less: (T, T) -> bool, s: seq<T>) {
    forall i, j :: 0 <= i < j < |s| ==> less(s[i], s[j])
  }

  predicate SameElements<T(==)>(a: seq<T>, b: seq<T>) {
    (forall x <- a :: x in b) && (forall x <- b :: x in a)
  }

  /** A strictly sorted list is determined by its elements. */
  lemma {:induction false} SortedUnique<T(!new)>(less: (T, T) -> bool, a: seq<T>, b: seq<T>)
    requires forall x, y :: less(x, y) ==> !less(y, x)
    requires Sorted(less, a) && Sorted(less, b) && SameElements(a, b)
    ensures a == b
    decreases |a|
  {
    assert |b| > 0 ==> b[0] in b;
    if a != [] {
      assert a[0] in b && b[0] in a;
      assert a[0] == b[0];
      var ta, tb := a[1..], b[1..];
      forall x <- ta
        ensures x in tb
      {
        assert less(a[0], x);
        assert x in a && x in b;
      }
      forall x <- tb
        ensures x in ta
      {
        assert less(b[0], x);
        assert x in b && x in a;
      }
      SortedUnique(less, ta, tb);
      assert a == [a[0]] + ta && b == [b[0]] + tb;
    }
  }

  lemma {:induction false} LeastExists(keys: set<Bytes>) returns (least: Bytes)
    requires keys != {}
    ensures least in keys && forall k <- keys :: k == least || Less(least, k)
    decreases |keys|
  {
    hide Less;
    var k :| k in keys;
    var rest := keys - {k};
    least := k;
    if rest != {} {
      var other := LeastExists(rest);
      LessTotal(k, other);
      if Less(other, k) {
        least := other;
      }
      forall l | l in keys && l != least
        ensures Less(least, l)
      {
        if l != k && least == k && l != other {
          LessTransitive(k, other, l);
        }
      }
    } else {
      assert keys == {k};
    }
  }

  /** Every finite set of keys can be listed in order. */
  lemma {:induction false} ListExists(keys: set<Bytes>) returns (s: seq<Bytes>)
    ensures Sorted(Less, s) && forall k :: k in s <==> k in keys
    decreases |keys|
  {
    s := [];
    if keys != {} {
      var least := LeastExists(keys);
      var rest := ListExists(keys - {least});
      forall j | 0 <= j < |rest|
        ensures Less(least, rest[j])
      {
        assert rest[j] in rest;
      }
      s := [least] + rest;
    }
  }
}
