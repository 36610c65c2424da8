/** The horizontal filter bar (components/filters-horizontal.tsx): its
    "is this filter in use" tests, its button labels, the translation key of
    each sort option, and the record each user action hands to
    `onFiltersChange`. */
module FiltersHorizontal {
  import opened Types
  import opened Text
  import opened FilterUpdates

  // ---------------------------------------------------------------------
  // Active tests (components/filters-horizontal.tsx:78-80)
  // ---------------------------------------------------------------------

  predicate PriceActive(f: FilterOptions, maxPrice: real)
  {
    f.priceRange.0 > 0.0 || f.priceRange.1 < maxPrice
  }

  predicate DiscountActive(f: FilterOptions)
  {
    f.minDiscount > 0
  }

  predicate CategoriesActive(f: FilterOptions)
  {
    |f.categories| > 0
  }

  // ---------------------------------------------------------------------
  // Labels (components/filters-horizontal.tsx:64-75)
  // ---------------------------------------------------------------------

  /** The price button's label: 'Any price', or the two bounds (their
      `$x - $y` text is number formatting and is not modelled). */
  datatype PriceLabel = AnyPrice | RangeLabel(low: real, high: real)

  function GetPriceLabel(f: FilterOptions, maxPrice: real): (l: PriceLabel)
    ensures l == AnyPrice <==> f.priceRange == (0.0, maxPrice)
    ensures l.RangeLabel? ==> l.low == f.priceRange.0 && l.high == f.priceRange.1
  {
    if f.priceRange.0 == 0.0 && f.priceRange.1 == maxPrice then AnyPrice
    else RangeLabel(f.priceRange.0, f.priceRange.1)
  }

  /** 'Any price' is only shown for an inactive price filter. */
  lemma AnyPriceIsInactive(f: FilterOptions, maxPrice: real)
    requires GetPriceLabel(f, maxPrice) == AnyPrice
    ensures !PriceActive(f, maxPrice)
  {
  }

  /** The converse fails: an upper bound above `maxPrice` (or a negative
      lower bound) is inactive yet labelled with the range. */
  lemma InactiveRangeLabel(f: FilterOptions, maxPrice: real)
    requires f.priceRange == (0.0, maxPrice + 1.0)
    ensures !PriceActive(f, maxPrice)
    ensures GetPriceLabel(f, maxPrice) == RangeLabel(0.0, maxPrice + 1.0)
  {
  }

  /** The discount button's label: 'Any discount' for 0, otherwise the
      threshold's canonical decimal text followed by "%+ off". */
  function GetDiscountLabel(f: FilterOptions): (s: string)
    ensures s == "Any discount" <==> f.minDiscount == 0
    ensures f.minDiscount != 0 ==>
      |s| > 6 && s[|s| - 6..] == "%+ off" && ParseInt(s[..|s| - 6]) == Some(f.minDiscount)
    ensures f.minDiscount != 0 ==> NoLeadingZero(s[..|s| - 6])
  {
    if f.minDiscount == 0 then "Any discount"
    else
      var text := IntToString(f.minDiscount);
      IntToStringRoundTrip(f.minDiscount);
      assert (text + "%+ off")[..|text|] == text;
      assert (text + "%+ off")[0] == text[0] != 'A';
      text + "%+ off"
  }

  /** An active discount filter never reads 'Any discount'; a negative
      threshold is inactive and still shows its number. */
  lemma DiscountLabelAndActive(f: FilterOptions)
    ensures DiscountActive(f) ==> GetDiscountLabel(f) != "Any discount"
    ensures f.minDiscount < 0 ==> !DiscountActive(f) && GetDiscountLabel(f) != "Any discount"
  {
  }

  // ---------------------------------------------------------------------
  // Sort options (components/filters-horizontal.tsx:303, 310-325)
  // ---------------------------------------------------------------------

  /** `option.replace('-', '_').replace('price_low', 'priceLow')
      .replace('price_high', 'priceHigh')`: each replace acts on the first
      occurrence only. */
  function SortTranslationKey(option: SortBy): string
  {
    ReplaceFirst(ReplaceFirst(ReplaceFirst(SortByText(option), "-", "_"), "price_low", "priceLow"), "price_high", "priceHigh")
  }

  /** A pattern whose first character does not occur, or that is longer
      than the string, is not found and nothing is replaced. */
  lemma NoMatchIn(s: string, pat: string)
    requires |pat| > 0
    requires |pat| > |s| || forall k :: 0 <= k < |s| ==> s[k] != pat[0]
    ensures forall r :: ReplaceFirst(s, pat, r) == s
  {
    forall j: nat
      ensures !MatchAt(s, pat, j)
    {
      if j + |pat| <= |s| {
        assert s[j..j + |pat|][0] == s[j];
      }
    }
  }

  /** Options without a dash keep their own name as key. */
  lemma DiscountOptionKey()
    ensures SortTranslationKey(ByDiscount) == "discount"
  {
    NoMatchIn("discount", "-");
    NoMatchIn("discount", "price_low");
    NoMatchIn("discount", "price_high");
  }

  lemma SavingsOptionKey()
    ensures SortTranslationKey(BySavings) == "savings"
  {
    NoMatchIn("savings", "-");
    NoMatchIn("savings", "price_low");
    NoMatchIn("savings", "price_high");
  }

  lemma NameOptionKey()
    ensures SortTranslationKey(ByName) == "name"
  {
    NoMatchIn("name", "-");
    NoMatchIn("name", "price_low");
    NoMatchIn("name", "price_high");
  }

  /** 'price-low' becomes 'price_low', then 'priceLow'. */
  lemma PriceLowKey()
    ensures SortTranslationKey(ByPriceLow) == "priceLow"
  {
    ReplaceFirstChar("price-low", '-', "_", 5);
    assert "price-low"[..5] + "_" + "price-low"[6..] == "price_low";
    ReplaceFirstPrefix("price_low", "", "priceLow");
    assert "price_low" + "" == "price_low";
    NoMatchIn("priceLow", "price_high");
  }

  /** 'price-high' becomes 'price_high', is left alone by the
      'price_low' step, then becomes 'priceHigh'. */
  lemma PriceHighKey()
    ensures SortTranslationKey(ByPriceHigh) == "priceHigh"
  {
    ReplaceFirstChar("price-high", '-', "_", 5);
    assert "price-high"[..5] + "_" + "price-high"[6..] == "price_high";
    LongerPatternNoMatch();
    ReplaceFirstPrefix("price_high", "", "priceHigh");
    assert "price_high" + "" == "price_high";
  }

  /** "price_low" does not occur in "price_high": the only place a 'p'
      could start it is index 0, where the seventh characters differ. */
  lemma LongerPatternNoMatch()
    ensures ReplaceFirst("price_high", "price_low", "priceLow") == "price_high"
  {
    var s, pat := "price_high", "price_low";
    forall j: nat
      ensures !MatchAt(s, pat, j)
    {
      if j + |pat| <= |s| {
        assert s[j..j + |pat|][0] == s[j];
        assert s[j..j + |pat|][6] == s[j + 6];
      }
    }
  }

  /** Different options get different keys, so no two share a label. */
  lemma SortTranslationKeyInjective(a: SortBy, b: SortBy)
    requires SortTranslationKey(a) == SortTranslationKey(b)
    ensures a == b
  {
    DiscountOptionKey();
    SavingsOptionKey();
    NameOptionKey();
    PriceLowKey();
    PriceHighKey();
  }

  /** The options of the sort menu, in menu order (line 310). */
  function SortOptions(): seq<SortBy>
  {
    [ByDiscount, BySavings, ByPriceLow, ByPriceHigh, ByName]
  }

  /** An option is highlighted and ticked iff it is the current sort key
      (lines 320, 326). */
  predicate SortPicked(f: FilterOptions, option: SortBy)
  {
    f.sortBy == option
  }

  /** The menu lists every sort key once, so exactly one entry of the menu
      is picked, whatever the current key. */
  lemma ExactlyOneSortPicked(f: FilterOptions)
    ensures exists i :: 0 <= i < |SortOptions()| && SortPicked(f, SortOptions()[i])
    ensures forall i, j ::
      0 <= i < |SortOptions()| && 0 <= j < |SortOptions()| &&
      SortPicked(f, SortOptions()[i]) && SortPicked(f, SortOptions()[j])
      ==> i == j
  {
    var os := SortOptions();
    match f.sortBy
    case ByDiscount => assert SortPicked(f, os[0]);
    case BySavings => assert SortPicked(f, os[1]);
    case ByPriceLow => assert SortPicked(f, os[2]);
    case ByPriceHigh => assert SortPicked(f, os[3]);
    case ByName => assert SortPicked(f, os[4]);
  }

  // ---------------------------------------------------------------------
  // User actions and the record each hands to onFiltersChange
  // ---------------------------------------------------------------------

  datatype Action =
    | TypeSearch(query: string)                 // line 93
    | ClearSearch                                // line 99
    | SlidePrice(low: real, high: real)          // line 135
    | ClearPrice                                 // line 157
    | SlideDiscount(minDiscount: int)            // line 196
    | ClearDiscount                              // line 215
    | ClickCategory(category: string)           // lines 252-261
    | ClearCategories                            // line 282
    | PickSort(sortBy: SortBy)                   // line 316

  function FieldOf(a: Action): Field
  {
    match a
    case TypeSearch(_) => SearchQueryField
    case ClearSearch => SearchQueryField
    case SlidePrice(_, _) => PriceRangeField
    case ClearPrice => PriceRangeField
    case SlideDiscount(_) => MinDiscountField
    case ClearDiscount => MinDiscountField
    case ClickCategory(_) => CategoriesField
    case ClearCategories => CategoriesField
    case PickSort(_) => SortByField
  }

  /** The record built for an action: only the action's field changes, and
      each clear action leaves its filter inactive. */
  function Apply(f: FilterOptions, maxPrice: real, a: Action): (g: FilterOptions)
    ensures AgreeExcept(f, g, FieldOf(a))
    ensures a.TypeSearch? ==> g.searchQuery == a.query
    ensures a == ClearSearch ==> g.searchQuery == ""
    ensures a.SlidePrice? ==> g.priceRange == (a.low, a.high)
    ensures a == ClearPrice ==> !PriceActive(g, maxPrice) && GetPriceLabel(g, maxPrice) == AnyPrice
    ensures a.SlideDiscount? ==> g.minDiscount == a.minDiscount
    ensures a == ClearDiscount ==> !DiscountActive(g) && GetDiscountLabel(g) == "Any discount"
    ensures a.ClickCategory? ==> forall d :: d in g.categories <==>
      (if d == a.category then a.category !in f.categories else d in f.categories)
    ensures a == ClearCategories ==> !CategoriesActive(g)
    ensures a.PickSort? ==> g.sortBy == a.sortBy
  {
    match a
    case TypeSearch(q) => SetSearchQuery(f, q)
    case ClearSearch => SetSearchQuery(f, "")
    case SlidePrice(low, high) => SetPriceRange(f, low, high)
    case ClearPrice => SetPriceRange(f, 0.0, maxPrice)
    case SlideDiscount(d) => SetMinDiscount(f, d)
    case ClearDiscount => SetMinDiscount(f, 0)
    case ClickCategory(c) =>
      ToggleMembership(f.categories, c);
      SetCategories(f, Toggle(f.categories, c))
    case ClearCategories => SetCategories(f, [])
    case PickSort(s) => SetSortBy(f, s)
  }

  predicate IsClear(a: Action)
  {
    a == ClearSearch || a == ClearPrice || a == ClearDiscount || a == ClearCategories
  }

  /** Whether a clear action's button is rendered: the search field's cross
      when the query is non-empty (line 97), and each popover's clear button
      under its own condition (lines 153, 211, 278). Other controls are
      always there. */
  predicate ClearShown(f: FilterOptions, maxPrice: real, a: Action)
  {
    match a
    case ClearSearch => f.searchQuery != ""
    case ClearPrice => f.priceRange.0 > 0.0 || f.priceRange.1 < maxPrice
    case ClearDiscount => f.minDiscount > 0
    case ClearCategories => |f.categories| > 0
    case _ => true
  }

  /** Each popover's clear button is offered exactly when its filter counts
      as active for the trigger's highlight (lines 78-80). */
  lemma ClearShownIffActive(f: FilterOptions, maxPrice: real)
    ensures ClearShown(f, maxPrice, ClearPrice) <==> PriceActive(f, maxPrice)
    ensures ClearShown(f, maxPrice, ClearDiscount) <==> DiscountActive(f)
    ensures ClearShown(f, maxPrice, ClearCategories) <==> CategoriesActive(f)
  {
  }

  /** Pressing a clear button hides that button (its filter is no longer in
      use) and leaves whether every other clear button is shown as it was. */
  lemma ClearActionsDeactivate(f: FilterOptions, maxPrice: real, a: Action, b: Action)
    requires IsClear(a) && IsClear(b)
    ensures !ClearShown(Apply(f, maxPrice, a), maxPrice, a)
    ensures a != b ==> ClearShown(Apply(f, maxPrice, a), maxPrice, b) == ClearShown(f, maxPrice, b)
  {
  }

  /** Clicking an unselected category twice restores the record. */
  lemma ClickCategoryTwice(f: FilterOptions, maxPrice: real, c: string)
    requires c !in f.categories
    ensures Apply(Apply(f, maxPrice, ClickCategory(c)), maxPrice, ClickCategory(c)) == f
  {
    ToggleTwiceUnselected(f.categories, c);
  }
}
