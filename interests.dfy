/**
  Interest strings, shared by the calendar page, the list page, the calendar context and the
  interests page. An interest is either a bare category (`"Movies"`) or a subcategory
  interest `"Category:Sub"`; the helpers below are written identically in each of those files.
 */
module Interests {
  import Seqs
  import Text
  import Wrappers

  /** `interest.includes(":")`. */
  predicate IsSubcategoryInterest(interest: string) {
    ':' in interest
  }

  /** The negation, used to select the bare categories (`!isSubcategoryInterest(interest)`). */
  predicate IsBareInterest(interest: string) {
    ':' !in interest
  }

  /** `interest.split(":")[0]`: the text before the first colon, or the whole string without one. */
  function MainCategory(interest: string): (c: string)
    ensures ':' !in c
    ensures ':' !in interest ==> c == interest
    ensures ':' in interest ==> c + [':'] <= interest
  {
    Text.SplitFirst(interest, ':');
    Text.Split(interest, ':')[0]
  }

  /**
    `interest.split(":")[1]`: the text between the first and the second colon; JavaScript's
    `undefined` (here `None`) when there is no colon.
   */
  function SubcategoryPart(interest: string): (r: Wrappers.Option<string>)
    ensures r.Some? <==> ':' in interest
    ensures r.Some? ==> ':' !in r.value
  {
    var pieces := Text.Split(interest, ':');
    if |pieces| >= 2 then Wrappers.Some(pieces[1]) else Wrappers.None
  }

  /** The interest string the interests page toggles for a subcategory checkbox: `${category}:${sub}`. */
  function SubcategoryInterest(category: string, sub: string): string {
    category + [':'] + sub
  }

  /** A colon-free category and subcategory are read back from the interest they form. */
  lemma SubcategoryInterestRoundTrip(category: string, sub: string)
    requires ':' !in category && ':' !in sub
    ensures IsSubcategoryInterest(SubcategoryInterest(category, sub))
    ensures MainCategory(SubcategoryInterest(category, sub)) == category
    ensures SubcategoryPart(SubcategoryInterest(category, sub)) == Wrappers.Some(sub)
  {
    Text.SplitPair(category, sub, ':');
    assert SubcategoryInterest(category, sub)[|category|] == ':';
  }

  /**
    The list `subcategoriesByMainCategory[category]`: the second piece of every subcategory
    interest whose main category is `category`, in the order of the interests.
   */
  function SubcategoriesFor(interests: seq<string>, category: string): seq<string> {
    if interests == [] then []
    else
      var i := interests[0];
      var rest := SubcategoriesFor(interests[1..], category);
      if IsSubcategoryInterest(i) && MainCategory(i) == category then [Text.Split(i, ':')[1]] + rest
      else rest
  }

  /** The interest `i` selects subcategory `sub` of `category`. */
  predicate SelectsSubcategory(i: string, category: string, sub: string) {
    IsSubcategoryInterest(i) && MainCategory(i) == category && SubcategoryPart(i) == Wrappers.Some(sub)
  }

  /** A subcategory is listed for `category` exactly when some interest selects it. */
  lemma {:induction false} SubcategoriesForMembers(interests: seq<string>, category: string)
    ensures forall sub :: sub in SubcategoriesFor(interests, category)
              <==> exists i :: i in interests && SelectsSubcategory(i, category, sub)
  {
    if interests != [] {
      var i, rest := interests[0], interests[1..];
      SubcategoriesForMembers(rest, category);
      assert interests == [i] + rest;
      if IsSubcategoryInterest(i) {
        assert SubcategoryPart(i) == Wrappers.Some(Text.Split(i, ':')[1]);
      }
      forall sub ensures sub in SubcategoriesFor(interests, category)
                  <==> exists j :: j in interests && SelectsSubcategory(j, category, sub) {
        if exists j :: j in interests && SelectsSubcategory(j, category, sub) {
          var j :| j in interests && SelectsSubcategory(j, category, sub);
          if j != i {
            assert j in rest;
          }
        }
        if sub in SubcategoriesFor(interests, category) {
          if sub in SubcategoriesFor(rest, category) {
            var j :| j in rest && SelectsSubcategory(j, category, sub);
            assert j in interests;
          } else {
            assert SelectsSubcategory(i, category, sub);
          }
        }
      }
    }
  }

  /** The list for `category` is non-empty exactly when some interest is a subcategory of it. */
  lemma HasSubcategoriesFor(interests: seq<string>, category: string)
    ensures SubcategoriesFor(interests, category) != []
        <==> exists i :: i in interests && IsSubcategoryInterest(i) && MainCategory(i) == category
  {
    SubcategoriesForMembers(interests, category);
    if i :| i in interests && IsSubcategoryInterest(i) && MainCategory(i) == category {
      assert SelectsSubcategory(i, category, SubcategoryPart(i).value);
    }
  }

  /** The list for a concatenation is the concatenation of the lists. */
  lemma {:induction false} SubcategoriesForAppend(a: seq<string>, b: seq<string>, category: string)
    ensures SubcategoriesFor(a + b, category) == SubcategoriesFor(a, category) + SubcategoriesFor(b, category)
  {
    if a == [] {
      assert a + b == b;
    } else {
      assert (a + b)[0] == a[0];
      assert (a + b)[1..] == a[1..] + b;
      SubcategoriesForAppend(a[1..], b, category);
    }
  }

  /** Bare interests contribute nothing to the lists. */
  lemma {:induction false} SubcategoriesForSkipsBare(interests: seq<string>, category: string)
    ensures SubcategoriesFor(Seqs.Filter(interests, IsSubcategoryInterest), category)
         == SubcategoriesFor(interests, category)
  {
    if interests != [] {
      SubcategoriesForSkipsBare(interests[1..], category);
      Seqs.FilterCons(interests[0], interests[1..], IsSubcategoryInterest);
      assert interests == [interests[0]] + interests[1..];
    }
  }

  /** `index` maps each category with a subcategory interest in `interests` to its list, and nothing else. */
  ghost predicate IndexesList(index: map<string, seq<string>>, interests: seq<string>) {
    && (forall c :: c in index <==> SubcategoriesFor(interests, c) != [])
    && (forall c :: c in index ==> index[c] == SubcategoriesFor(interests, c))
  }

  /** Pushing one more subcategory interest onto its category's list keeps the index exact. */
  lemma IndexStep(prefix: seq<string>, interest: string, index: map<string, seq<string>>, category: string, sub: string)
    requires IsSubcategoryInterest(interest)
    requires category == MainCategory(interest) && sub == Text.Split(interest, ':')[1]
    requires IndexesList(index, prefix)
    ensures IndexesList(index[category := (if category in index then index[category] else []) + [sub]], prefix + [interest])
  {
    var next := index[category := (if category in index then index[category] else []) + [sub]];
    forall c ensures (c in next <==> SubcategoriesFor(prefix + [interest], c) != [])
                  && (c in next ==> next[c] == SubcategoriesFor(prefix + [interest], c)) {
      SubcategoriesForAppend(prefix, [interest], c);
      SubcategoriesForOne(interest, c);
    }
  }

  /** The list of a single interest. */
  lemma SubcategoriesForOne(interest: string, category: string)
    ensures SubcategoriesFor([interest], category)
         == if IsSubcategoryInterest(interest) && MainCategory(interest) == category
            then [Text.Split(interest, ':')[1]] else []
  {
    assert [interest][1..] == [];
  }

  /** Bare interests do not change which index is exact. */
  lemma IndexesListSkipsBare(index: map<string, seq<string>>, interests: seq<string>)
    requires IndexesList(index, Seqs.Filter(interests, IsSubcategoryInterest))
    ensures IndexesList(index, interests)
  {
    forall c ensures SubcategoriesFor(Seqs.Filter(interests, IsSubcategoryInterest), c) == SubcategoriesFor(interests, c) {
      SubcategoriesForSkipsBare(interests, c);
    }
  }

  /** The `forEach` callback: create the category's list if it is new, then push the subcategory. */
  method PushSubcategory(index: map<string, seq<string>>, category: string, sub: string)
    returns (index': map<string, seq<string>>)
    ensures index' == index[category := (if category in index then index[category] else []) + [sub]]
  {
    index' := index;
    if category !in index' {
      index' := index'[category := []];
    }
    index' := index'[category := index'[category] + [sub]];
  }

  /**
    The `forEach` that fills `subcategoriesByMainCategory`: a key is created on the first
    subcategory interest of a category, and every subcategory is pushed onto its category's list.
   */
  method BuildSubcategoryIndex(interests: seq<string>) returns (index: map<string, seq<string>>)
    ensures forall c :: c in index <==> SubcategoriesFor(interests, c) != []
    ensures forall c :: c in index ==> index[c] == SubcategoriesFor(interests, c)
  {
    var subInterests := Seqs.Filter(interests, IsSubcategoryInterest);
    index := map[];
    ghost var done: seq<string> := [];
    var k := 0;
    while k < |subInterests|
      invariant 0 <= k <= |subInterests|
      invariant done == subInterests[..k]
      invariant IndexesList(index, done)
    {
      var interest := subInterests[k];
      assert IsSubcategoryInterest(interest) by {
        Seqs.FilterMembers(interests, IsSubcategoryInterest);
        assert interest in subInterests;
      }
      var pieces := Text.Split(interest, ':');
      var mainCategory, subcategory := pieces[0], pieces[1];
      IndexStep(done, interest, index, mainCategory, subcategory);
      index := PushSubcategory(index, mainCategory, subcategory);
      Seqs.TakeSnoc(subInterests, k);
      done := done + [interest];
      k := k + 1;
    }
    assert done == subInterests;
    IndexesListSkipsBare(index, interests);
  }
}
