/** Key sets as sorted lists: what the writers get from collecting a hash map's keys and sorting them. */
module Sorting {
  import opened Common
  import opened Binary

  /** s holds every key once and nothing else. */
  ghost predicate Lists<T(!new)>(s: seq<T>, keys: set<T>) {
    && (forall i, j :: 0 <= i < j < |s| ==> s[i] != s[j])
    && (forall x :: x in s <==> x in keys)
  }

  ghost predicate Covers<K(!new), V>(keys: seq<K>, m: map<K, V>) {
    forall k :: k in keys ==> k in m
  }

  ghost predicate TotalOrder<T(!new)>(leq: (T, T) -> bool) {
    && (forall a, b :: leq(a, b) || leq(b, a))
    && (forall a, b, c :: leq(a, b) && leq(b, c) ==> leq(a, c))
  }

  ghost predicate Sorted<T>(s: seq<T>, leq: (T, T) -> bool) {
    forall i, j :: 0 <= i < j < |s| ==> leq(s[i], s[j])
  }

  /** Byte by byte, a prefix before its extensions. */
  predicate LexLeq(a: Bytes, b: Bytes) {
    a == [] || (b != [] && (a[0] < b[0] || (a[0] == b[0] && LexLeq(a[1..], b[1..]))))
  }

  lemma {:induction false} LexTotal(a: Bytes, b: Bytes)
    ensures LexLeq(a, b) || LexLeq(b, a)
  {
    if a != [] && b != [] && a[0] == b[0] {
      LexTotal(a[1..], b[1..]);
    }
  }

  lemma {:induction false} LexTransitive(a: Bytes, b: Bytes, c: Bytes)
    requires LexLeq(a, b) && LexLeq(b, c)
    ensures LexLeq(a, c)
  {
    if a != [] && a[0] == b[0] && b[0] == c[0] {
      LexTransitive(a[1..], b[1..], c[1..]);
    }
  }

  lemma LexIsOrder()
    ensures TotalOrder(LexLeq)
  {
    forall a, b ensures LexLeq(a, b) || LexLeq(b, a) {
      LexTotal(a, b);
    }
    forall a, b, c | LexLeq(a, b) && LexLeq(b, c) ensures LexLeq(a, c) {
      LexTransitive(a, b, c);
    }
  }

  predicate IntLeq(a: int, b: int) {
    a <= b
  }

  method SortedKeys<T(==,!new)>(keys: set<T>, leq: (T, T) -> bool) returns (s: seq<T>)
    requires TotalOrder(leq)
    ensures Lists(s, keys) && Sorted(s, leq)
  {
    s := [];
    var rest := keys;
    while rest != {}
      invariant rest <= keys && Lists(s, keys - rest) && Sorted(s, leq)
      decreases |rest|
    {
      ghost var some := Member(rest);
      var x :| x in rest;
      var i := Place(s, leq, x);
      Inserted(s, keys - rest, leq, x, i);
      s := s[..i] + [x] + s[i..];
      assert keys - rest + {x} == keys - (rest - {x});
      rest := rest - {x};
    }
    assert keys - rest == keys;
  }

  /** Where x belongs in a sorted list. */
  method Place<T>(s: seq<T>, leq: (T, T) -> bool, x: T) returns (i: nat)
    ensures i <= |s|
    ensures forall k :: 0 <= k < i ==> leq(s[k], x)
    ensures i < |s| ==> !leq(s[i], x)
  {
    i := 0;
    while i < |s| && leq(s[i], x)
      invariant i <= |s| && forall k :: 0 <= k < i ==> leq(s[k], x)
    {
      i := i + 1;
    }
  }

  lemma Inserted<T(!new)>(s: seq<T>, keys: set<T>, leq: (T, T) -> bool, x: T, i: nat)
    requires TotalOrder(leq) && Lists(s, keys) && Sorted(s, leq) && x !in keys
    requires i <= |s| && (forall k :: 0 <= k < i ==> leq(s[k], x)) && (i < |s| ==> !leq(s[i], x))
    ensures Lists(s[..i] + [x] + s[i..], keys + {x}) && Sorted(s[..i] + [x] + s[i..], leq)
  {
    InsertedLists(s, keys, x, i);
    InsertedSorted(s, leq, x, i);
  }

  lemma InsertedLists<T(!new)>(s: seq<T>, keys: set<T>, x: T, i: nat)
    requires Lists(s, keys) && x !in keys && i <= |s|
    ensures Lists(s[..i] + [x] + s[i..], keys + {x})
  {
    var t := s[..i] + [x] + s[i..];
    assert forall k :: 0 <= k < |t| ==> t[k] == if k < i then s[k] else if k == i then x else s[k - 1];
    assert forall k :: 0 <= k < |s| ==> s[k] in keys;
    forall y ensures y in t <==> y in keys + {x} {
      InsertedMembers(s, x, i, y);
    }
  }

  lemma InsertedMembers<T(!new)>(s: seq<T>, x: T, i: nat, y: T)
    requires i <= |s|
    ensures y in s[..i] + [x] + s[i..] <==> y == x || y in s
  {
    assert s == s[..i] + s[i..];
  }

  lemma InsertedSorted<T(!new)>(s: seq<T>, leq: (T, T) -> bool, x: T, i: nat)
    requires TotalOrder(leq) && Sorted(s, leq)
    requires i <= |s| && (forall k :: 0 <= k < i ==> leq(s[k], x)) && (i < |s| ==> !leq(s[i], x))
    ensures Sorted(s[..i] + [x] + s[i..], leq)
  {
    var t := s[..i] + [x] + s[i..];
    assert forall k :: 0 <= k < |t| ==> t[k] == if k < i then s[k] else if k == i then x else s[k - 1];
    forall k | i <= k < |s| ensures leq(x, s[k]) {
      if k > i {
        assert leq(s[i], s[k]);
      }
    }
  }

  // ---- Positions in a sorted list are ranks ----

  lemma {:induction false} CountOfDistinct<T(!new)>(s: seq<T>)
    requires forall i, j :: 0 <= i < j < |s| ==> s[i] != s[j]
    ensures |set x | x in s| == |s|
  {
    if s != [] {
      var front, last := s[..|s| - 1], s[|s| - 1];
      CountOfDistinct(front);
      assert s == front + [last];
      assert (set x | x in s) == (set x | x in front) + {last};
    }
  }

  /** The key at position i has exactly i smaller ones. */
  lemma PositionIsRank(s: seq<int>, keys: set<int>, i: nat)
    requires Lists(s, keys) && Sorted(s, IntLeq) && i < |s|
    ensures |set k | k in keys && k < s[i]| == i
  {
    CountOfDistinct(s[..i]);
    forall j | i < j < |s| ensures s[i] <= s[j] {
      assert IntLeq(s[i], s[j]);
    }
    var smaller := set k | k in keys && k < s[i];
    forall k ensures k in smaller <==> k in s[..i] {
      if k in s[..i] {
        var j :| 0 <= j < i && s[j] == k;
        assert IntLeq(s[j], s[i]);
        assert s[j] in s;
      }
      if k in smaller {
        assert k in s;
        var j :| 0 <= j < |s| && s[j] == k;
        assert s[..i][j] == k;
      }
    }
    assert smaller == set k | k in s[..i];
  }
}
