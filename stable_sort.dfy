/**
  `Array.prototype.sort((a, b) => key(a) - key(b))`, which ECMAScript requires to be stable:
  ascending by an integer key, elements with equal keys in their original order.
  Modelled as insertion sort.
 */
module StableSort {
  import Seqs

  /** Non-decreasing by `key`. */
  predicate SortedBy<T>(s: seq<T>, key: T -> int) {
    forall i, j :: 0 <= i < j < |s| ==> key(s[i]) <= key(s[j])
  }

  /** Inserts `x` in front of the first element whose key is not smaller than its own. */
  function Insert<T>(x: T, s: seq<T>, key: T -> int): (r: seq<T>)
    ensures |r| == |s| + 1
  {
    if s == [] || key(x) <= key(s[0]) then [x] + s
    else [s[0]] + Insert(x, s[1..], key)
  }

  /** Insertion adds exactly one element. */
  lemma {:induction false} InsertPermutes<T>(x: T, s: seq<T>, key: T -> int)
    ensures multiset(Insert(x, s, key)) == multiset(s) + multiset{x}
  {
    if s != [] && key(x) > key(s[0]) {
      InsertPermutes(x, s[1..], key);
      assert s == [s[0]] + s[1..];
    }
  }

  /** The first element of a sorted sequence has the smallest key. */
  lemma SortedHeadSmallest<T>(s: seq<T>, key: T -> int)
    requires SortedBy(s, key) && s != []
    ensures forall y :: y in s ==> key(s[0]) <= key(y)
  {
    forall y | y in s ensures key(s[0]) <= key(y) {
      var k :| 0 <= k < |s| && s[k] == y;
      if k > 0 {
        assert key(s[0]) <= key(s[k]);
      }
    }
  }

  /** Putting an element no larger than the rest in front of a sorted sequence keeps it sorted. */
  lemma SortedCons<T>(y: T, t: seq<T>, key: T -> int)
    requires SortedBy(t, key)
    requires forall z :: z in t ==> key(y) <= key(z)
    ensures SortedBy([y] + t, key)
  {
    var r := [y] + t;
    forall i, j | 0 <= i < j < |r| ensures key(r[i]) <= key(r[j]) {
      assert r[j] == t[j - 1];
      if i > 0 {
        assert r[i] == t[i - 1];
      } else {
        assert t[j - 1] in t;
      }
    }
  }

  /** Insertion into a sorted sequence keeps it sorted. */
  lemma {:induction false} InsertSorted<T>(x: T, s: seq<T>, key: T -> int)
    requires SortedBy(s, key)
    ensures SortedBy(Insert(x, s, key), key)
  {
    if s == [] || key(x) <= key(s[0]) {
      if s != [] {
        SortedHeadSmallest(s, key);
      }
      SortedCons(x, s, key);
    } else {
      var rest := Insert(x, s[1..], key);
      assert SortedBy(s[1..], key);
      InsertSorted(x, s[1..], key);
      InsertPermutes(x, s[1..], key);
      SortedHeadSmallest(s, key);
      forall y | y in rest ensures key(s[0]) <= key(y) {
        assert y in multiset(rest);
        if y != x {
          assert y in multiset(s[1..]);
          assert y in s;
        }
      }
      SortedCons(s[0], rest, key);
    }
  }

  /** Stable insertion sort by `key`. */
  function SortBy<T>(s: seq<T>, key: T -> int): (r: seq<T>)
    ensures SortedBy(r, key)
    ensures multiset(r) == multiset(s)
    ensures |r| == |s|
  {
    if s == [] then []
    else
      var rest := SortBy(s[1..], key);
      InsertSorted(s[0], rest, key);
      InsertPermutes(s[0], rest, key);
      assert multiset(s) == multiset(s[1..]) + multiset{s[0]} by {
        assert s == [s[0]] + s[1..];
      }
      Insert(s[0], rest, key)
  }

  /** Inserting an element no larger than every other puts it first. */
  lemma InsertSmallest<T>(x: T, s: seq<T>, key: T -> int)
    requires forall y :: y in s ==> key(x) <= key(y)
    ensures Insert(x, s, key) == [x] + s
  {
  }

  /** Filtering after an insertion is inserting into the filtered sequence. */
  lemma {:induction false} InsertFilter<T(!new)>(x: T, s: seq<T>, key: T -> int, p: T -> bool)
    requires SortedBy(s, key)
    ensures Seqs.Filter(Insert(x, s, key), p)
         == if p(x) then Insert(x, Seqs.Filter(s, p), key) else Seqs.Filter(s, p)
  {
    if s == [] || key(x) <= key(s[0]) {
      assert Insert(x, s, key) == [x] + s;
      Seqs.FilterCons(x, s, p);
      if p(x) {
        Seqs.FilterMembers(s, p);
        if s != [] {
          SortedHeadSmallest(s, key);
        }
        InsertSmallest(x, Seqs.Filter(s, p), key);
      }
    } else {
      var s0, s1 := s[0], s[1..];
      assert s == [s0] + s1;
      var rest := Insert(x, s1, key);
      assert Insert(x, s, key) == [s0] + rest;
      Seqs.FilterCons(s0, rest, p);
      Seqs.FilterCons(s0, s1, p);
      assert SortedBy(s1, key);
      InsertFilter(x, s1, key, p);
      var f1 := Seqs.Filter(s1, p);
      if p(s0) && p(x) {
        var fs := [s0] + f1;
        assert Seqs.Filter(s, p) == fs;
        assert fs[0] == s0 && fs[1..] == f1;
        assert key(x) > key(fs[0]);
        assert Insert(x, fs, key) == [s0] + Insert(x, f1, key);
        assert Seqs.Filter(Insert(x, s, key), p) == [s0] + Seqs.Filter(rest, p);
      }
    }
  }

  /** Sorting commutes with filtering: the filtered view of a sorted list is the sorted filtered list. */
  lemma {:induction false} SortFilterCommute<T(!new)>(s: seq<T>, key: T -> int, p: T -> bool)
    ensures Seqs.Filter(SortBy(s, key), p) == SortBy(Seqs.Filter(s, p), key)
  {
    if s != [] {
      var s0, s1 := s[0], s[1..];
      assert s == [s0] + s1;
      SortFilterCommute(s1, key, p);
      InsertFilter(s0, SortBy(s1, key), key, p);
      Seqs.FilterCons(s0, s1, p);
      var f1 := Seqs.Filter(s1, p);
      if p(s0) {
        var fs := [s0] + f1;
        assert fs[0] == s0 && fs[1..] == f1;
        assert SortBy(fs, key) == Insert(s0, SortBy(f1, key), key);
      }
    }
  }

  /** Sorting an already sorted sequence changes nothing. */
  lemma {:induction false} SortSorted<T>(s: seq<T>, key: T -> int)
    requires SortedBy(s, key)
    ensures SortBy(s, key) == s
  {
    if s != [] {
      var t := s[1..];
      assert SortedBy(t, key) by {
        forall i, j | 0 <= i < j < |t| ensures key(t[i]) <= key(t[j]) {
          assert t[i] == s[i + 1] && t[j] == s[j + 1];
        }
      }
      SortSorted(t, key);
      assert SortBy(s, key) == Insert(s[0], SortBy(t, key), key);
      SortedHeadSmallest(s, key);
      assert forall y :: y in t ==> y in s;
      InsertSmallest(s[0], t, key);
      assert [s[0]] + t == s;
    }
  }

  /** The predicate "has key `k`". */
  function KeyIs<T>(key: T -> int, k: int): T -> bool {
    x => key(x) == k
  }

  /** Stability: elements sharing a key keep their original relative order. */
  lemma SortStable<T(!new)>(s: seq<T>, key: T -> int, k: int)
    ensures Seqs.Filter(SortBy(s, key), KeyIs(key, k)) == Seqs.Filter(s, KeyIs(key, k))
  {
    var f := Seqs.Filter(s, KeyIs(key, k));
    SortFilterCommute(s, key, KeyIs(key, k));
    Seqs.FilterMembers(s, KeyIs(key, k));
    forall i, j | 0 <= i < j < |f| ensures key(f[i]) <= key(f[j]) {
      assert f[i] in f && f[j] in f;
      assert KeyIs(key, k)(f[i]) && KeyIs(key, k)(f[j]);
    }
    SortSorted(f, key);
  }
}
