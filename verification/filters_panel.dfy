/** The side filter panel (components/filters.tsx): category checkboxes,
    the tri-state purchase-limit radios, the clear-filters button and the
    record each control hands to `onFiltersChange`. */
module FiltersPanel {
  import opened Types
  import opened FilterUpdates

  /** A category checkbox is checked iff the category is selected (line 85). */
  predicate IsChecked(f: FilterOptions, category: string)
  {
    category in f.categories
  }

  /** A purchase-limit radio is checked iff its value is `hasLimit`
      (lines 150, 159, 168): null is "all", true "with limit", false
      "without limit". */
  predicate RadioChecked(f: FilterOptions, option: Option<bool>)
  {
    f.hasLimit == option
  }

  /** The three radio values. */
  function RadioOptions(): seq<Option<bool>>
  {
    [None, Some(true), Some(false)]
  }

  /** Exactly one of the three radios is checked, whatever `hasLimit` is. */
  lemma ExactlyOneRadioChecked(f: FilterOptions)
    ensures exists i :: 0 <= i < 3 && RadioChecked(f, RadioOptions()[i])
    ensures forall i, j :: 0 <= i < 3 && 0 <= j < 3 && RadioChecked(f, RadioOptions()[i]) && RadioChecked(f, RadioOptions()[j]) ==> i == j
  {
    var os := RadioOptions();
    match f.hasLimit
    case None => assert RadioChecked(f, os[0]);
    case Some(b) =>
      if b { assert RadioChecked(f, os[1]); } else { assert RadioChecked(f, os[2]); }
  }

  /** The checkbox handler (lines 86-91): checking appends the category,
      unchecking filters every occurrence out. The handler reads the
      event's checked flag, not the list. */
  function CheckCategory(f: FilterOptions, category: string, checked: bool): (g: FilterOptions)
    ensures AgreeExcept(f, g, CategoriesField)
    ensures checked ==> g.categories == f.categories + [category]
    ensures !checked ==> !IsChecked(g, category)
    ensures !checked ==> forall d :: d != category ==> (IsChecked(g, d) <==> IsChecked(f, d))
  {
    if checked then SetCategories(f, f.categories + [category])
    else SetCategories(f, Without(f.categories, category))
  }

  /** A click flips the box: the event's checked flag is the negation of
      the box's state, so the handler does what the horizontal bar's toggle
      does; checking then unchecking an unselected category restores the
      record. */
  lemma CheckboxClickIsToggle(f: FilterOptions, category: string)
    ensures CheckCategory(f, category, !IsChecked(f, category)).categories == Toggle(f.categories, category)
    ensures !IsChecked(f, category) ==> CheckCategory(CheckCategory(f, category, true), category, false) == f
  {
    if !IsChecked(f, category) {
      ToggleTwiceUnselected(f.categories, category);
    }
  }

  /** The record of the clear-filters button (lines 178-186). */
  function ClearedFilters(maxPrice: real): (g: FilterOptions)
    ensures g.categories == [] && g.priceRange == (0.0, maxPrice) && g.minDiscount == 0
    ensures g.searchQuery == "" && g.sortBy == ByDiscount && g.hasLimit == None
  {
    FilterOptions([], (0.0, maxPrice), 0, "", ByDiscount, None)
  }

  datatype Action =
    | TypeSearch(query: string)                  // line 32
    | PickSort(sortBy: SortBy)                    // line 44
    | CheckBox(category: string, checked: bool)  // lines 86-91
    | SlidePrice(low: real, high: real)           // line 109
    | SlideDiscount(minDiscount: int)             // line 130
    | PickLimit(hasLimit: Option<bool>)           // lines 151, 160, 169
    | ClearFilters                                // lines 178-186

  /** The record built for an action. */
  function Apply(f: FilterOptions, maxPrice: real, a: Action): (g: FilterOptions)
    ensures a.TypeSearch? ==> AgreeExcept(f, g, SearchQueryField) && g.searchQuery == a.query
    ensures a.PickSort? ==> AgreeExcept(f, g, SortByField) && g.sortBy == a.sortBy
    ensures a.CheckBox? ==> AgreeExcept(f, g, CategoriesField) && (IsChecked(g, a.category) <==> a.checked)
    ensures a.SlidePrice? ==> AgreeExcept(f, g, PriceRangeField) && g.priceRange == (a.low, a.high)
    ensures a.SlideDiscount? ==> AgreeExcept(f, g, MinDiscountField) && g.minDiscount == a.minDiscount
    ensures a.PickLimit? ==> AgreeExcept(f, g, HasLimitField) && RadioChecked(g, a.hasLimit)
    ensures a == ClearFilters ==> g == ClearedFilters(maxPrice)
  {
    match a
    case TypeSearch(q) => SetSearchQuery(f, q)
    case PickSort(s) => SetSortBy(f, s)
    case CheckBox(c, checked) => CheckCategory(f, c, checked)
    case SlidePrice(low, high) => SetPriceRange(f, low, high)
    case SlideDiscount(d) => SetMinDiscount(f, d)
    case PickLimit(h) => SetHasLimit(f, h)
    case ClearFilters => ClearedFilters(maxPrice)
  }

  /** Clearing does not depend on the current filters, so clearing twice
      is clearing once. */
  lemma ClearFiltersIdempotent(f: FilterOptions, f2: FilterOptions, maxPrice: real)
    ensures Apply(f, maxPrice, ClearFilters) == Apply(f2, maxPrice, ClearFilters)
    ensures Apply(Apply(f, maxPrice, ClearFilters), maxPrice, ClearFilters) == Apply(f, maxPrice, ClearFilters)
  {
  }

  /** After clearing, every category box and the "with"/"without limit"
      radios are unchecked and the "all" radio is checked. */
  lemma ClearedPanelState(f: FilterOptions, maxPrice: real, category: string)
    ensures !IsChecked(Apply(f, maxPrice, ClearFilters), category)
    ensures RadioChecked(Apply(f, maxPrice, ClearFilters), None)
    ensures !RadioChecked(Apply(f, maxPrice, ClearFilters), Some(true))
    ensures !RadioChecked(Apply(f, maxPrice, ClearFilters), Some(false))
  {
  }
}
