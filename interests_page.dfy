/**
  The interests page: which category panels are expanded, and the read-only questions the
  page asks about the interest Set.
 */
module InterestsPage {
  import Seqs
  import Interests
  import ListToggle

  /** The main category of every subcategory interest, with repeats, in interest order. */
  function ParentCategories(interests: seq<string>): (r: seq<string>)
    ensures forall c :: c in r <==>
              exists i :: i in interests && Interests.IsSubcategoryInterest(i) && Interests.MainCategory(i) == c
  {
    if interests == [] then []
    else
      var init, last := interests[..|interests| - 1], interests[|interests| - 1];
      assert interests == init + [last];
      if Interests.IsSubcategoryInterest(last) then ParentCategories(init) + [Interests.MainCategory(last)]
      else ParentCategories(init)
  }

  /** De-duplicating one more element adds it at the end unless it was already there. */
  lemma DedupSnoc(s: seq<string>, x: string)
    ensures Seqs.Dedup(s + [x]) == if x in Seqs.Dedup(s) then Seqs.Dedup(s) else Seqs.Dedup(s) + [x]
  {
    assert (s + [x])[..|s|] == s;
  }

  /**
    `getInitialExpandedCategories`: the Set of main categories of the subcategory interests,
    as an array in insertion order — each category that has a selected subcategory, once.
   */
  method InitialExpanded(interests: seq<string>) returns (expanded: seq<string>)
    ensures expanded == Seqs.Dedup(ParentCategories(interests))
    ensures Seqs.NoDup(expanded)
    ensures forall c :: c in expanded <==>
              exists i :: i in interests && Interests.IsSubcategoryInterest(i) && Interests.MainCategory(i) == c
  {
    expanded := [];
    for k := 0 to |interests|
      invariant expanded == Seqs.Dedup(ParentCategories(interests[..k]))
    {
      var interest := interests[k];
      assert interests[..k + 1][..k] == interests[..k];
      if Interests.IsSubcategoryInterest(interest) {
        var category := Interests.MainCategory(interest);
        DedupSnoc(ParentCategories(interests[..k]), category);
        if category !in expanded {
          expanded := expanded + [category];
        }
      }
    }
    assert interests[..|interests|] == interests;
  }

  /** The predicate "not already in `prev`". */
  function NotIn(prev: seq<string>): string -> bool {
    c => c !in prev
  }

  /**
    The expansion-sync effect: copy the previous list and push every category with a selected
    subcategory that is not in it yet. Nothing is removed or reordered.
   */
  method SyncExpanded(prev: seq<string>, interests: seq<string>) returns (next: seq<string>)
    ensures prev <= next
    ensures next[|prev|..] == Seqs.Filter(Seqs.Dedup(ParentCategories(interests)), NotIn(prev))
    ensures forall c :: c in next <==> c in prev || c in ParentCategories(interests)
    ensures Seqs.NoDup(prev) ==> Seqs.NoDup(next)
  {
    var parents := InitialExpanded(interests);
    next := prev;
    for k := 0 to |parents|
      invariant prev <= next
      invariant next[|prev|..] == Seqs.Filter(parents[..k], NotIn(prev))
      invariant forall c :: c in next[|prev|..] ==> c in parents[..k]
      invariant Seqs.NoDup(prev) ==> Seqs.NoDup(next)
    {
      var category := parents[k];
      SyncStep(prev, parents, k, next);
      if category !in next {
        next := next + [category];
      }
    }
    assert parents[..|parents|] == parents;
    SyncMembers(prev, parents, next);
  }

  /** One step of the sync loop: the next parent is pushed exactly when `prev` lacks it. */
  lemma SyncStep(prev: seq<string>, parents: seq<string>, k: int, next: seq<string>)
    requires Seqs.NoDup(parents) && 0 <= k < |parents|
    requires prev <= next
    requires next[|prev|..] == Seqs.Filter(parents[..k], NotIn(prev))
    requires forall c :: c in next[|prev|..] ==> c in parents[..k]
    ensures var n := if parents[k] in next then next else next + [parents[k]];
      && prev <= n
      && n[|prev|..] == Seqs.Filter(parents[..k + 1], NotIn(prev))
      && (forall c :: c in n[|prev|..] ==> c in parents[..k + 1])
      && (Seqs.NoDup(prev) && Seqs.NoDup(next) ==> Seqs.NoDup(n))
  {
    var category := parents[k];
    assert parents[..k + 1] == parents[..k] + [category];
    Seqs.FilterAppend(parents[..k], [category], NotIn(prev));
    assert [category][1..] == [];
    assert category !in parents[..k] by {
      forall j | 0 <= j < k ensures parents[..k][j] != category {
        assert parents[..k][j] == parents[j];
      }
    }
    assert next == prev + next[|prev|..];
    if category !in next {
      if Seqs.NoDup(next) {
        Seqs.NoDupSnoc(next, category);
      }
      assert (next + [category])[|prev|..] == next[|prev|..] + [category];
    }
  }

  /** After the sync loop, the list holds `prev` and the parents, and nothing else. */
  lemma SyncMembers(prev: seq<string>, parents: seq<string>, next: seq<string>)
    requires prev <= next
    requires next[|prev|..] == Seqs.Filter(parents, NotIn(prev))
    ensures forall c :: c in next <==> c in prev || c in parents
  {
    Seqs.FilterMembers(parents, NotIn(prev));
    assert next == prev + next[|prev|..];
  }

  /** The page's expanded-category state. */
  class ExpansionState {
    var expanded: seq<string>

    /** `useState(getInitialExpandedCategories())`. */
    constructor (interests: seq<string>)
      ensures expanded == Seqs.Dedup(ParentCategories(interests))
    {
      var initial := InitialExpanded(interests);
      expanded := initial;
    }

    /** `toggleExpand`: collapse an expanded category, expand a collapsed one. */
    method ToggleExpand(category: string)
      modifies this
      ensures expanded == ListToggle.Toggle(old(expanded), category)
      ensures category in expanded <==> category !in old(expanded)
    {
      expanded := ListToggle.Toggle(expanded, category);
    }

    /** The effect run when the interests change. */
    method Sync(interests: seq<string>)
      modifies this
      ensures old(expanded) <= expanded
      ensures expanded[|old(expanded)|..]
           == Seqs.Filter(Seqs.Dedup(ParentCategories(interests)), NotIn(old(expanded)))
      ensures forall c :: c in expanded <==> c in old(expanded) || c in ParentCategories(interests)
      ensures Seqs.NoDup(old(expanded)) ==> Seqs.NoDup(expanded)
    {
      expanded := SyncExpanded(expanded, interests);
    }
  }

  /** `isSubcategorySelected`: the interest `${category}:${subcategory}` is in the Set. */
  function IsSubcategorySelected(interests: seq<string>, category: string, sub: string): bool {
    Interests.SubcategoryInterest(category, sub) in interests
  }

  /** A checked subcategory box is one the calendar filter applies to its category. */
  lemma SelectedSubcategoryFilters(interests: seq<string>, category: string, sub: string)
    requires ':' !in category && ':' !in sub
    requires IsSubcategorySelected(interests, category, sub)
    ensures sub in Interests.SubcategoriesFor(interests, category)
  {
    Interests.SubcategoryInterestRoundTrip(category, sub);
    Interests.SubcategoriesForMembers(interests, category);
    assert Interests.SelectsSubcategory(Interests.SubcategoryInterest(category, sub), category, sub);
  }

  /** `hasSubcategorySelected`: some subcategory interest has `category` as its main category. */
  function HasSubcategorySelected(interests: seq<string>, category: string): (r: bool)
    ensures r <==> exists i :: i in interests && Interests.IsSubcategoryInterest(i) && Interests.MainCategory(i) == category
  {
    if interests == [] then false
    else
      assert interests == [interests[0]] + interests[1..];
      (Interests.IsSubcategoryInterest(interests[0]) && Interests.MainCategory(interests[0]) == category)
      || HasSubcategorySelected(interests[1..], category)
  }

  /**
    The page marks a category as having a selected subcategory exactly when the event filter
    gives that category's subcategories precedence.
   */
  lemma HasSubcategoryMeansPrecedence(interests: seq<string>, category: string)
    ensures HasSubcategorySelected(interests, category) <==> Interests.SubcategoriesFor(interests, category) != []
  {
    Interests.HasSubcategoriesFor(interests, category);
  }
}
