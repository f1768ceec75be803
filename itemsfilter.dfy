/**
 * The items page (src/pages/ItemsList.tsx): the searched and filtered list,
 * the sorted list of distinct categories offered by the category select, and
 * the hint shown when nothing matches. `toLowerCase` folds ASCII letters only
 * and `sort` compares strings character by character.
 */
module ItemsFilter {
  import opened Wrappers
  import opened JsString
  import opened ItemsCatalog

  // ---------------------------------------------------------------------------
  // Search and category filter
  // ---------------------------------------------------------------------------

  /** The query occurs, ignoring ASCII case, in the title or the description. */
  predicate MatchesSearch(item: Item, query: string)
  {
    Contains(ToLower(item.title), ToLower(query)) || Contains(ToLower(item.description), ToLower(query))
  }

  /** The category filter is "all" or names the item's category exactly. */
  predicate MatchesCategory(item: Item, category: string)
  {
    category == "all" || item.category == category
  }

  predicate Matches(item: Item, query: string, category: string)
  {
    MatchesSearch(item, query) && MatchesCategory(item, category)
  }

  /** `a` is `b` with some elements left out, the rest in their order. */
  predicate IsSubsequence<T(==)>(a: seq<T>, b: seq<T>)
    decreases |b|
  {
    if a == [] then true
    else if b == [] then false
    else if a[0] == b[0] then IsSubsequence(a[1..], b[1..])
    else IsSubsequence(a, b[1..])
  }

  /**
   * `items.filter(...)`: exactly the matching items, each as often as it
   * occurs, in their original order.
   */
  function FilterItems(items: seq<Item>, query: string, category: string): (r: seq<Item>)
    ensures forall k :: 0 <= k < |r| ==> Matches(r[k], query, category)
    ensures forall x :: multiset(r)[x] == if Matches(x, query, category) then multiset(items)[x] else 0
    ensures IsSubsequence(r, items)
  {
    if items == [] then []
    else
      var rest := FilterItems(items[1..], query, category);
      assert items == [items[0]] + items[1..];
      if Matches(items[0], query, category) then [items[0]] + rest else rest
  }

  /** `filteredItems`: nothing while there is no data. */
  function FilteredItems(data: Option<seq<Item>>, query: string, category: string): seq<Item>
  {
    match data
    case None => []
    case Some(items) => FilterItems(items, query, category)
  }

  /** An empty query with the "all" filter keeps every item. */
  lemma {:induction false} EmptyQueryKeepsAll(items: seq<Item>)
    ensures FilterItems(items, "", "all") == items
  {
    if items != [] {
      assert ToLower("") == "";
      ContainsEmpty(ToLower(items[0].title));
      EmptyQueryKeepsAll(items[1..]);
      assert items == [items[0]] + items[1..];
    }
  }

  /** The search ignores letter case in the query. */
  lemma QueryCaseIgnored(items: seq<Item>, query: string, category: string)
    ensures FilterItems(items, ToLower(query), category) == FilterItems(items, query, category)
  {
    ToLowerIdempotent(query);
    assert forall x :: Matches(x, ToLower(query), category) == Matches(x, query, category);
    FilterSameMatches(items, ToLower(query), query, category);
  }

  lemma {:induction false} FilterSameMatches(items: seq<Item>, q1: string, q2: string, category: string)
    requires forall x :: Matches(x, q1, category) == Matches(x, q2, category)
    ensures FilterItems(items, q1, category) == FilterItems(items, q2, category)
  {
    if items != [] {
      FilterSameMatches(items[1..], q1, q2, category);
    }
  }

  // ---------------------------------------------------------------------------
  // Categories
  // ---------------------------------------------------------------------------

  /** String order as the default `sort` uses it: character by character, a prefix first. */
  predicate LexLe(a: string, b: string)
  {
    if a == [] then true
    else if b == [] then false
    else if a[0] != b[0] then a[0] < b[0]
    else LexLe(a[1..], b[1..])
  }

  lemma {:induction false} LexLeTotal(a: string, b: string)
    ensures LexLe(a, b) || LexLe(b, a)
  {
    if a != [] && b != [] && a[0] == b[0] {
      LexLeTotal(a[1..], b[1..]);
    }
  }

  lemma {:induction false} LexLeAntisymmetric(a: string, b: string)
    requires LexLe(a, b) && LexLe(b, a)
    ensures a == b
  {
    if a != [] && b != [] {
      LexLeAntisymmetric(a[1..], b[1..]);
      assert a == [a[0]] + a[1..] && b == [b[0]] + b[1..];
    }
  }

  predicate SortedAscending(s: seq<string>)
  {
    forall k :: 0 <= k < |s| - 1 ==> LexLe(s[k], s[k + 1])
  }

  predicate NoDuplicates<T(==)>(s: seq<T>)
  {
    forall i, j :: 0 <= i < j < |s| ==> s[i] != s[j]
  }

  /** Insert `x` into a sorted list before the first element it does not exceed. */
  function Insert(x: string, s: seq<string>): (r: seq<string>)
    requires SortedAscending(s)
    ensures SortedAscending(r)
    ensures multiset(r) == multiset(s) + multiset{x}
    ensures |r| > 0 && (r[0] == x || (|s| > 0 && r[0] == s[0]))
  {
    if s == [] then [x]
    else if LexLe(x, s[0]) then [x] + s
    else
      LexLeTotal(x, s[0]);
      var rest := Insert(x, s[1..]);
      assert s == [s[0]] + s[1..];
      [s[0]] + rest
  }

  /** The sort applied to the distinct categories, written as insertion sort. */
  function SortStrings(s: seq<string>): (r: seq<string>)
    ensures SortedAscending(r)
    ensures multiset(r) == multiset(s)
  {
    if s == [] then []
    else
      assert s == [s[0]] + s[1..];
      Insert(s[0], SortStrings(s[1..]))
  }

  /** `Array.from(new Set(xs))`: each value once, in order of first occurrence. */
  function Distinct(xs: seq<string>): (r: seq<string>)
    ensures NoDuplicates(r)
    ensures forall x :: x in r <==> x in xs
  {
    if xs == [] then []
    else
      var init := Distinct(xs[..|xs| - 1]);
      var last := xs[|xs| - 1];
      assert xs == xs[..|xs| - 1] + [last];
      if last in init then init else init + [last]
  }

  /** `items.map((item) => item.category)` */
  function CategoriesOf(items: seq<Item>): (r: seq<string>)
    ensures |r| == |items| && forall k :: 0 <= k < |items| ==> r[k] == items[k].category
  {
    seq(|items|, k requires 0 <= k < |items| => items[k].category)
  }

  /** `categories`: nothing while there is no data. */
  function Categories(data: Option<seq<Item>>): seq<string>
  {
    match data
    case None => []
    case Some(items) => SortStrings(Distinct(CategoriesOf(items)))
  }

  /** A list without repeats keeps that property under any permutation. */
  lemma PermutationKeepsNoDuplicates(a: seq<string>, b: seq<string>)
    requires multiset(a) == multiset(b) && NoDuplicates(a)
    ensures NoDuplicates(b)
  {
    forall x | x in multiset(a)
      ensures multiset(a)[x] == 1
    {
      var i :| 0 <= i < |a| && a[i] == x;
      CountOne(a, i);
    }
    forall i, j | 0 <= i < j < |b|
      ensures b[i] != b[j]
    {
      assert b[i] in multiset(a);
      LaterCopyCounted(b, i, j);
    }
  }

  /** A value that occurs once is not repeated further on. */
  lemma LaterCopyCounted(b: seq<string>, i: nat, j: nat)
    requires i < j < |b| && multiset(b)[b[i]] == 1
    ensures b[i] != b[j]
  {
    assert b == b[..j] + [b[j]] + b[j + 1..];
    assert b[..j][i] == b[i];
    assert multiset(b)[b[j]] >= multiset(b[..j])[b[j]] + 1;
  }

  lemma {:induction false} CountOne(a: seq<string>, i: nat)
    requires NoDuplicates(a) && i < |a|
    ensures multiset(a)[a[i]] == 1
  {
    assert a == a[..i] + [a[i]] + a[i + 1..];
    assert a[i] !in a[..i];
    assert a[i] !in a[i + 1..];
  }

  /**
   * The category list holds each category of the items exactly once, no
   * other string, in ascending order; strictly ascending, as no two entries
   * are equal.
   */
  lemma CategoriesSpec(data: Option<seq<Item>>)
    ensures var r := Categories(data);
      && SortedAscending(r) && NoDuplicates(r)
      && (forall k :: 0 <= k < |r| - 1 ==> r[k] != r[k + 1])
      && (forall c :: c in r <==> data.Some? && exists k :: 0 <= k < |data.value| && data.value[k].category == c)
  {
    if data.Some? {
      var cats := CategoriesOf(data.value);
      var d := Distinct(cats);
      var r := SortStrings(d);
      PermutationKeepsNoDuplicates(d, r);
      forall c
        ensures c in r <==> exists k :: 0 <= k < |data.value| && data.value[k].category == c
      {
        assert c in r <==> c in multiset(r);
        assert c in d <==> c in multiset(d);
        if c in cats {
          var k :| 0 <= k < |cats| && cats[k] == c;
          assert data.value[k].category == c;
        }
      }
    }
  }

  /** With no data both the list and the categories are empty. */
  lemma NoDataNothingShown(query: string, category: string)
    ensures FilteredItems(None, query, category) == [] && Categories(None) == []
  {
  }

  lemma MockDistinct()
    ensures Distinct(CategoriesOf(MockItems)) == ["Electronics", "Audio", "Accessories"]
  {
    var cats := CategoriesOf(MockItems);
    assert cats == ["Electronics", "Electronics", "Audio", "Accessories", "Electronics"];
    assert cats[..1] == ["Electronics"];
    assert Distinct(cats[..1]) == ["Electronics"];
    assert cats[..2][..1] == cats[..1];
    assert Distinct(cats[..2]) == ["Electronics"];
    assert cats[..3][..2] == cats[..2];
    assert Distinct(cats[..3]) == ["Electronics", "Audio"];
    assert cats[..4][..3] == cats[..3];
    assert Distinct(cats[..4]) == ["Electronics", "Audio", "Accessories"];
    assert cats[..4] == cats[..|cats| - 1];
  }

  lemma InsertAudio()
    ensures Insert("Audio", ["Accessories"]) == ["Accessories", "Audio"]
  {
    assert "Audio"[0] == 'A' && "Accessories"[0] == 'A';
    assert "Audio"[1..] == "udio" && "Accessories"[1..] == "ccessories";
    assert !LexLe("Audio", "Accessories");
    assert ["Accessories"][1..] == [];
  }

  lemma InsertElectronics()
    ensures Insert("Electronics", ["Accessories", "Audio"]) == ["Accessories", "Audio", "Electronics"]
  {
    assert !LexLe("Electronics", "Accessories");
    assert !LexLe("Electronics", "Audio");
    assert ["Accessories", "Audio"][1..] == ["Audio"];
    assert ["Audio"][1..] == [];
  }

  lemma MockSort()
    ensures SortStrings(["Electronics", "Audio", "Accessories"]) == ["Accessories", "Audio", "Electronics"]
  {
    var d: seq<string> := ["Electronics", "Audio", "Accessories"];
    assert d[2..] == ["Accessories"] && d[1..] == ["Audio", "Accessories"];
    assert d[2..][1..] == [];
    assert SortStrings(d[2..]) == ["Accessories"];
    InsertAudio();
    assert d[1..][1..] == d[2..];
    assert SortStrings(d[1..]) == ["Accessories", "Audio"];
    InsertElectronics();
  }

  /** The categories of the mock list: Accessories, Audio, Electronics. */
  lemma MockCategories()
    ensures Categories(Some(FetchItems().data.items)) == ["Accessories", "Audio", "Electronics"]
  {
    MockDistinct();
    MockSort();
  }

  // ---------------------------------------------------------------------------
  // Empty state
  // ---------------------------------------------------------------------------

  /** The hint under "No items found": a fixed sentence, or the translation of a key. */
  datatype EmptyHint = Sentence(text: string) | Translated(key: string)

  const AdjustSentence := "Try adjusting your search or filter"

  function EmptyStateHint(query: string, category: string): (h: EmptyHint)
    ensures h.Sentence? <==> query != "" || category != "all"
    ensures h.Sentence? ==> h.text == AdjustSentence
    ensures h.Translated? ==> h.key == "items.list.noItems"
  {
    if query != "" || category != "all" then Sentence(AdjustSentence) else Translated("items.list.noItems")
  }
}
