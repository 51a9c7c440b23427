/**
  The list toggle written three times in the application: `toggleFavorite` of the
  favourites hook, `toggleExpand` of the interests page, and the `delete`-or-`add` of
  `toggleInterest` on the interest Set (on a duplicate-free sequence, deleting the one
  occurrence and removing every occurrence are the same).
 */
module ListToggle {
  import Seqs

  /** `s.includes(x) ? s.filter(y => y !== x) : [...s, x]`. */
  function Toggle<T(==,!new)>(s: seq<T>, x: T): (r: seq<T>)
    ensures x in r <==> x !in s
    ensures forall y :: y != x ==> (y in r <==> y in s)
  {
    Seqs.RemoveAllMembership(s, x);
    if x in s then Seqs.RemoveAll(s, x) else s + [x]
  }

  /** Every other element keeps its relative order and its number of copies. */
  lemma ToggleKeepsOthers<T(!new)>(s: seq<T>, x: T)
    ensures Seqs.Filter(Toggle(s, x), Seqs.Other(x)) == Seqs.Filter(s, Seqs.Other(x))
  {
    if x in s {
      Seqs.FilterMembers(s, Seqs.Other(x));
      Seqs.FilterAll(Seqs.Filter(s, Seqs.Other(x)), Seqs.Other(x));
    } else {
      Seqs.FilterAppend(s, [x], Seqs.Other(x));
      assert [x][1..] == [];
    }
  }

  /** A duplicate-free list stays duplicate-free. */
  lemma ToggleNoDup<T(!new)>(s: seq<T>, x: T)
    requires Seqs.NoDup(s)
    ensures Seqs.NoDup(Toggle(s, x))
  {
    if x in s {
      Seqs.FilterNoDup(s, Seqs.Other(x));
    } else {
      Seqs.NoDupSnoc(s, x);
    }
  }

  /** Toggling an absent element twice gives back the very same list. */
  lemma ToggleTwiceAbsent<T(!new)>(s: seq<T>, x: T)
    requires x !in s
    ensures Toggle(Toggle(s, x), x) == s
  {
    Seqs.FilterAppend(s, [x], Seqs.Other(x));
    assert [x][1..] == [];
    Seqs.FilterAll(s, Seqs.Other(x));
  }

  /**
    Toggling a present element twice restores the members but moves the element to the end:
    it is removed and then appended again.
   */
  lemma ToggleTwicePresent<T(!new)>(s: seq<T>, x: T)
    requires x in s
    ensures Toggle(Toggle(s, x), x) == Seqs.RemoveAll(s, x) + [x]
    ensures forall y :: y in Toggle(Toggle(s, x), x) <==> y in s
  {
    Seqs.RemoveAllMembership(s, x);
  }

  /** The order does change: toggling "a" twice in ["a", "b"] gives ["b", "a"]. */
  lemma ToggleTwiceReorders()
    ensures Toggle(Toggle(["a", "b"], "a"), "a") == ["b", "a"]
  {
    var s: seq<string> := ["a", "b"];
    assert "a" in s;
    assert s[1..] == ["b"];
    assert Seqs.RemoveAll(s, "a") == ["b"];
    assert "a" !in ["b"];
  }
}
