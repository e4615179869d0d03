/**
 * The iteration order of Java's TreeMap: keys in ascending order of a strict total order.
 * Integer keys use `<`; string keys use String.compareTo, the lexicographic order of
 * their characters.
 */
module Ordered {

  ghost predicate StrictTotalOrder<K(!new)>(lt: (K, K) -> bool)
  {
    && (forall a :: !lt(a, a))
    && (forall a, b, c :: lt(a, b) && lt(b, c) ==> lt(a, c))
    && (forall a, b :: a != b ==> lt(a, b) || lt(b, a))
  }

  /** Strictly ascending under `lt`. */
  ghost predicate Ascending<K>(s: seq<K>, lt: (K, K) -> bool)
  {
    forall i, j :: 0 <= i < j < |s| ==> lt(s[i], s[j])
  }

  /** `m` is the greatest element of `s`. */
  ghost predicate IsMax<K>(m: K, s: set<K>, lt: (K, K) -> bool)
  {
    m in s && forall x :: x in s && x != m ==> lt(x, m)
  }

  lemma {:induction false} MaxExists<K(!new)>(s: set<K>, lt: (K, K) -> bool)
    requires StrictTotalOrder(lt)
    requires s != {}
    ensures exists m :: IsMax(m, s, lt)
    decreases |s|
  {
    var x :| x in s;
    if s - {x} == {} {
      assert s == {x};
      assert IsMax(x, s, lt);
    } else {
      MaxExists(s - {x}, lt);
      var m :| IsMax(m, s - {x}, lt);
      if lt(x, m) {
        assert IsMax(m, s, lt);
      } else {
        assert IsMax(x, s, lt);
      }
    }
  }

  /** The greatest element of a non-empty set. */
  ghost function Max<K(!new)>(s: set<K>, lt: (K, K) -> bool): (m: K)
    requires StrictTotalOrder(lt)
    requires s != {}
    ensures IsMax(m, s, lt)
  {
    MaxExists(s, lt);
    var m :| IsMax(m, s, lt);
    m
  }

  lemma MaxUnique<K(!new)>(s: set<K>, m: K, lt: (K, K) -> bool)
    requires StrictTotalOrder(lt)
    requires IsMax(m, s, lt)
    ensures Max(s, lt) == m
  {
    var m' := Max(s, lt);
  }

  /** The keys of `s` in ascending order: the order in which a TreeMap hands out its keys. */
  ghost function SortedKeys<K(!new)>(s: set<K>, lt: (K, K) -> bool): (r: seq<K>)
    requires StrictTotalOrder(lt)
    ensures |r| == |s|
    ensures forall x :: x in r <==> x in s
    ensures Ascending(r, lt)
    decreases |s|
  {
    if s == {} then []
    else
      var m := Max(s, lt);
      var r := SortedKeys(s - {m}, lt) + [m];
      assert forall i :: 0 <= i < |r| - 1 ==> r[i] in s - {m};
      r
  }

  /** Adding a key above every present key appends it to the ascending order. */
  lemma SortedKeysAddTop<K(!new)>(s: set<K>, m: K, lt: (K, K) -> bool)
    requires StrictTotalOrder(lt)
    requires m !in s
    requires forall x :: x in s ==> lt(x, m)
    ensures SortedKeys(s + {m}, lt) == SortedKeys(s, lt) + [m]
  {
    var t := s + {m};
    assert IsMax(m, t, lt);
    MaxUnique(t, m, lt);
    assert t - {m} == s;
  }

  /** Ascending order on integers, the order of a TreeMap with Integer keys. */
  predicate IntLess(a: int, b: int)
  {
    a < b
  }

  lemma IntOrder()
    ensures StrictTotalOrder(IntLess)
  {
  }

  /** `m` is the least element of `s`. */
  predicate IsLeast(m: int, s: set<int>)
  {
    m in s && forall x :: x in s ==> m <= x
  }

  /** Some element of a non-empty set. */
  ghost function Pick<K>(s: set<K>): (x: K)
    requires s != {}
    ensures x in s
  {
    var x :| x in s; x
  }

  /** A finite non-empty set of integers has a least element. */
  lemma {:induction false} IntMinExists(s: set<int>)
    requires s != {}
    ensures exists m :: IsLeast(m, s)
    decreases |s|
  {
    var y := Pick(s);
    if s - {y} == {} {
      assert s == {y};
      assert IsLeast(y, s);
    } else {
      IntMinExists(s - {y});
      var m :| IsLeast(m, s - {y});
      forall x | x in s && x != y ensures m <= x {
        assert x in s - {y};
      }
      if y < m {
        assert IsLeast(y, s);
      } else {
        assert IsLeast(m, s);
      }
    }
  }

  /** The last element of an ascending sequence is the greatest of its elements. */
  lemma LastIsMax<K(!new)>(r: seq<K>, s: set<K>, lt: (K, K) -> bool)
    requires Ascending(r, lt)
    requires r != [] && forall x :: x in r <==> x in s
    ensures IsMax(r[|r| - 1], s, lt)
  {
    forall x | x in s && x != r[|r| - 1] ensures lt(x, r[|r| - 1]) {
      var i :| 0 <= i < |r| && r[i] == x;
    }
  }

  /** Without its last element an ascending sequence holds exactly the other elements. */
  lemma DropLast<K(!new)>(r: seq<K>, s: set<K>, lt: (K, K) -> bool)
    requires StrictTotalOrder(lt)
    requires Ascending(r, lt)
    requires r != [] && forall x :: x in r <==> x in s
    ensures Ascending(r[..|r| - 1], lt)
    ensures forall x :: x in s && x != r[|r| - 1] <==> x in r[..|r| - 1]
  {
    var m, r' := r[|r| - 1], r[..|r| - 1];
    forall x ensures x in r' <==> x in s - {m} {
      if x in r' {
        var i :| 0 <= i < |r'| && r'[i] == x;
        assert lt(r[i], m);
      }
      if x in s - {m} {
        var i :| 0 <= i < |r| && r[i] == x;
        assert r'[i] == x;
      }
    }
  }

  /** An ascending sequence is determined by its elements: it is the sorted order of them. */
  lemma {:induction false} SortedKeysUnique<K(!new)>(r: seq<K>, s: set<K>, lt: (K, K) -> bool)
    requires StrictTotalOrder(lt)
    requires Ascending(r, lt)
    requires forall x :: x in r <==> x in s
    ensures r == SortedKeys(s, lt)
    decreases |r|
  {
    if r == [] {
      assert s == {};
    } else {
      var m, r' := r[|r| - 1], r[..|r| - 1];
      assert r == r' + [m];
      LastIsMax(r, s, lt);
      MaxUnique(s, m, lt);
      DropLast(r, s, lt);
      assert forall x :: x in r' <==> x in s - {m};
      SortedKeysUnique(r', s - {m}, lt);
    }
  }

  /** Adding a key below every present key puts it first in the ascending order. */
  lemma SortedKeysAddBottom<K(!new)>(s: set<K>, m: K, lt: (K, K) -> bool)
    requires StrictTotalOrder(lt)
    requires m !in s
    requires forall x :: x in s ==> lt(m, x)
    ensures SortedKeys(s + {m}, lt) == [m] + SortedKeys(s, lt)
  {
    var t := SortedKeys(s, lt);
    assert forall i :: 0 <= i < |t| ==> t[i] in s;
    ConsAscending(m, t, lt);
    ConsMembers(m, t, s);
    SortedKeysUnique([m] + t, s + {m}, lt);
  }

  /** A sequence holding the elements of a set, with one more in front, holds the set plus that one. */
  lemma ConsMembers<K>(m: K, t: seq<K>, s: set<K>)
    requires forall x :: x in t <==> x in s
    ensures forall x :: x in [m] + t <==> x in s + {m}
  {
  }

  /** An element below every element of an ascending sequence can go in front of it. */
  lemma ConsAscending<K>(m: K, t: seq<K>, lt: (K, K) -> bool)
    requires Ascending(t, lt) && forall i :: 0 <= i < |t| ==> lt(m, t[i])
    ensures Ascending([m] + t, lt)
  {
    var r := [m] + t;
    forall i, j | 0 <= i < j < |r| ensures lt(r[i], r[j]) {
      assert r[j] == t[j - 1];
      if i > 0 {
        assert r[i] == t[i - 1];
      }
    }
  }

  /** String.compareTo: lexicographic by character, a proper prefix coming first. */
  predicate StrLess(a: string, b: string)
  {
    if |a| == 0 then |b| > 0
    else if |b| == 0 then false
    else if a[0] != b[0] then a[0] < b[0]
    else StrLess(a[1..], b[1..])
  }

  lemma {:induction false} StrLessIrreflexive(a: string)
    ensures !StrLess(a, a)
    decreases |a|
  {
    if |a| > 0 {
      StrLessIrreflexive(a[1..]);
    }
  }

  lemma {:induction false} StrLessTransitive(a: string, b: string, c: string)
    requires StrLess(a, b) && StrLess(b, c)
    ensures StrLess(a, c)
    decreases |a|
  {
    if |a| > 0 && |b| > 0 && |c| > 0 && a[0] == b[0] && b[0] == c[0] {
      StrLessTransitive(a[1..], b[1..], c[1..]);
    }
  }

  lemma {:induction false} StrLessTotal(a: string, b: string)
    requires a != b
    ensures StrLess(a, b) || StrLess(b, a)
    decreases |a|
  {
    if |a| > 0 && |b| > 0 && a[0] == b[0] {
      assert a == [a[0]] + a[1..] && b == [b[0]] + b[1..];
      StrLessTotal(a[1..], b[1..]);
    }
  }

  /** Strings are ordered by String.compareTo. */
  lemma StringOrder()
    ensures StrictTotalOrder(StrLess)
  {
    forall a: string ensures !StrLess(a, a) {
      StrLessIrreflexive(a);
    }
    forall a: string, b: string, c: string | StrLess(a, b) && StrLess(b, c) ensures StrLess(a, c) {
      StrLessTransitive(a, b, c);
    }
    forall a: string, b: string | a != b ensures StrLess(a, b) || StrLess(b, a) {
      StrLessTotal(a, b);
    }
  }
}
