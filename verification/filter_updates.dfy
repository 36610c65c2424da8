/** The updates both filter panels make to a FilterOptions record
    (components/filters-horizontal.tsx, components/filters.tsx): every
    update is `{ ...filters, field: value }`, and the category list is
    edited by appending a category or filtering every occurrence out. */
module FilterUpdates {
  import opened Types

  // ---------------------------------------------------------------------
  // The category list
  // ---------------------------------------------------------------------

  /** `categories.filter(c => c !== category)`. */
  function Without(categories: seq<string>, category: string): (r: seq<string>)
    ensures |r| <= |categories|
    ensures forall d :: d in r <==> d in categories && d != category
  {
    if categories == [] then []
    else (if categories[0] == category then [] else [categories[0]]) + Without(categories[1..], category)
  }

  /** Filtering out a category keeps every other category, as often as it
      occurred. */
  lemma {:induction false} WithoutKeepsOthers(categories: seq<string>, category: string, d: string)
    requires d != category
    ensures multiset(Without(categories, category))[d] == multiset(categories)[d]
  {
    if categories != [] {
      WithoutKeepsOthers(categories[1..], category, d);
      assert categories == [categories[0]] + categories[1..];
    }
  }

  /** Nothing to filter out leaves the list as it was. */
  lemma {:induction false} WithoutAbsent(categories: seq<string>, category: string)
    requires category !in categories
    ensures Without(categories, category) == categories
  {
    if categories != [] {
      WithoutAbsent(categories[1..], category);
      assert categories == [categories[0]] + categories[1..];
    }
  }

  lemma {:induction false} WithoutAppend(a: seq<string>, b: seq<string>, category: string)
    ensures Without(a + b, category) == Without(a, category) + Without(b, category)
  {
    if a != [] {
      assert (a + b)[1..] == a[1..] + b;
      WithoutAppend(a[1..], b, category);
    } else {
      assert a + b == b;
    }
  }

  /** The category click of the horizontal bar (and the checkbox, whose
      checked state is the membership test): a selected category has every
      occurrence removed, an unselected one is appended at the end. */
  function Toggle(categories: seq<string>, category: string): seq<string>
  {
    if category in categories then Without(categories, category) else categories + [category]
  }

  /** Toggling flips exactly the membership of the toggled category. */
  lemma ToggleMembership(categories: seq<string>, category: string)
    ensures forall d :: d in Toggle(categories, category) <==> (if d == category then category !in categories else d in categories)
  {
  }

  /** Toggling an unselected category appends it; toggling it again gives
      back the original list. */
  lemma ToggleTwiceUnselected(categories: seq<string>, category: string)
    requires category !in categories
    ensures Toggle(categories, category) == categories + [category]
    ensures Toggle(Toggle(categories, category), category) == categories
  {
    assert category in categories + [category];
    WithoutAppend(categories, [category], category);
    WithoutAbsent(categories, category);
    assert Without([category], category) == [];
  }

  /** Toggling a selected category twice does not restore the list: every
      occurrence is removed, then one is appended at the end. */
  lemma ToggleTwiceSelected(categories: seq<string>, category: string)
    requires category in categories
    ensures Toggle(Toggle(categories, category), category) == Without(categories, category) + [category]
  {
  }

  /** A concrete case: a duplicated category is removed in full. */
  lemma ToggleRemovesDuplicates()
    ensures Toggle(["a", "b", "a"], "a") == ["b"]
  {
    assert ["a", "b", "a"][1..] == ["b", "a"];
    assert ["b", "a"][1..] == ["a"];
    assert ["a"][1..] == [];
  }

  // ---------------------------------------------------------------------
  // Single-field updates: `{ ...filters, field: value }`
  // ---------------------------------------------------------------------

  function SetCategories(f: FilterOptions, categories: seq<string>): (g: FilterOptions)
    ensures AgreeExcept(f, g, CategoriesField) && g.categories == categories
  {
    f.(categories := categories)
  }

  function SetPriceRange(f: FilterOptions, low: real, high: real): (g: FilterOptions)
    ensures AgreeExcept(f, g, PriceRangeField) && g.priceRange == (low, high)
  {
    f.(priceRange := (low, high))
  }

  function SetMinDiscount(f: FilterOptions, minDiscount: int): (g: FilterOptions)
    ensures AgreeExcept(f, g, MinDiscountField) && g.minDiscount == minDiscount
  {
    f.(minDiscount := minDiscount)
  }

  function SetSearchQuery(f: FilterOptions, query: string): (g: FilterOptions)
    ensures AgreeExcept(f, g, SearchQueryField) && g.searchQuery == query
  {
    f.(searchQuery := query)
  }

  function SetSortBy(f: FilterOptions, sortBy: SortBy): (g: FilterOptions)
    ensures AgreeExcept(f, g, SortByField) && g.sortBy == sortBy
  {
    f.(sortBy := sortBy)
  }

  function SetHasLimit(f: FilterOptions, hasLimit: Option<bool>): (g: FilterOptions)
    ensures AgreeExcept(f, g, HasLimitField) && g.hasLimit == hasLimit
  {
    f.(hasLimit := hasLimit)
  }

  /** Setting a field to the value it already has changes nothing, and a
      second update of the same field overrides the first. */
  lemma UpdatesOverride(f: FilterOptions, q1: string, q2: string, d1: int, d2: int)
    ensures SetSearchQuery(f, f.searchQuery) == f
    ensures SetSearchQuery(SetSearchQuery(f, q1), q2) == SetSearchQuery(f, q2)
    ensures SetMinDiscount(SetMinDiscount(f, d1), d2) == SetMinDiscount(f, d2)
    ensures SetCategories(f, f.categories) == f
  {
  }

  /** Updates of different fields commute. */
  lemma UpdatesCommute(f: FilterOptions, q: string, d: int, cats: seq<string>)
    ensures SetSearchQuery(SetMinDiscount(f, d), q) == SetMinDiscount(SetSearchQuery(f, q), d)
    ensures SetCategories(SetSearchQuery(f, q), cats) == SetSearchQuery(SetCategories(f, cats), q)
  {
  }
}
