# DoorDash bargain finder: a Dafny model of the catalogue logic

This project models the logic of the bargain-finder web catalogue. It covers:

- the per-category statistics, top deals and biggest savings computed in `lib/data.ts`;
- the formatting and savings helpers of `lib/utils.ts`;
- the figures and chart data of the statistics dashboard;
- what a product card shows;
- the filter records built by the two filter panels and the category grid;
- the path computed by the language switcher.

Each React component is modelled through the values it computes from its props. Rendering is not modelled.

`getCategoryStats` is the one core operation that works step by step. It fills a `Map` of arrays in a `forEach`, then pushes one record per category and sorts. In the model the two loops are the `method`s `Data.GroupByCategory` (the first `forEach`) and `Data.PushRecords` (the second), and `Data.GetCategoryStats` calls them and sorts. They are proved against the functional specification `Data.CategoryStatsSpec`, and the lemmas beside it state what the statistics mean. Every other core operation is an expression over its inputs, so it is modelled as a function.

The JavaScript built-ins the core relies on are modelled with their JavaScript meaning:

- `filter`, `map`, `reduce`, `Math.min` and `Math.max` are in module `JsArray`.
- `Array.prototype.sort` is stable, with a descending numeric comparator. It is modelled as a stable insertion sort.
- `slice(0, end)` counts a negative `end` from the back.
- `String.prototype.replace` with a string pattern replaces the first occurrence only. It is in module `Text`.
- Integer-to-text conversion is in `Text`, together with a parser that proves the text reads back.
- `toLowerCase` is modelled on ASCII letters.
- Truthiness is explicit:
  - `lib/data.ts` tests `discount`/`originalPrice` with `!== null`, so 0 counts as present.
  - The dashboard, the product card and `lib/utils.ts` test them by truthiness, so 0 counts as absent.
  - Predicates `Types.TruthyInt` and `Types.TruthyReal` model the truthiness tests.

Two facts about the code shape the model:

- `getBiggestSavings` ranks by the unclamped savings, so negative savings rank last (`Data.NegativeSavingsKept`).
- The selected categories are a list: a checkbox appends its category without checking for it, and unchecking removes every copy.

## Model

| member | source | states |
|---|---|---|
| Data.Categories | lib/data.ts:61-69 | the keys of the category map: no duplicates, and a name is a key iff some product has that category |
| Data.CategoriesInEncounterOrder | lib/data.ts:61-69 | the keys are in order of each category's first product, as `Map` insertion order gives |
| Data.Group | lib/data.ts:63-68 | a category's array is empty iff no product has the category; every member is a product of that category |
| Data.GroupExact | lib/data.ts:63-68 | a category's array holds every product of that category, as often as the input does, and no product of another category |
| Data.GroupByCategory | lib/data.ts:61-69 | the first loop builds exactly `Categories` as its key order, and for every key the array of that category's products in input order |
| Data.GetCategoryStats | lib/data.ts:60-92 | the method computes `CategoryStatsSpec`; the counts add up to the number of products; the result is sorted by count, descending; every entry names a present category with count at least 1; no products give no entries |
| Data.PushRecords | lib/data.ts:73-89 | the second loop pushes exactly `StatsList` of the keys: one record per key, in the Map's insertion order |
| Data.StatsOf | lib/data.ts:74-88 | the record of one category: name, count, mean price, mean of the non-null discounts or 0, cheapest and dearest price; its meaning is stated by StatsOfPrices and StatsOfDiscount |
| Data.StatsOfPrices | lib/data.ts:74-87 | name and count of a record; min <= average <= max price; every price of the category lies within [min, max], and both bounds are prices of some product |
| Data.StatsOfDiscount | lib/data.ts:75-85 | with no non-null discount the average discount is 0; otherwise it lies between two of the category's discounts |
| Data.ZeroDiscountCounts | lib/data.ts:76 | a discount of 0 is averaged in (`!== null`): 0 and 10 average to 5 |
| Data.StatsList | lib/data.ts:73-89 | one record per key, in key order |
| Data.StatsListAt | lib/data.ts:73-89 | the k-th record is the statistics of the k-th key's group |
| Data.CategoryCountsSum | lib/data.ts:60-92 | the product counts of all records add up to the number of products |
| Data.CategoryStatsEntries | lib/data.ts:73-89 | every record is the statistics of the group of its name, for a present category |
| Data.CategoryStatsOnePerCategory | lib/data.ts:60-92 | each category appears exactly once among the records iff some product has it |
| Data.CategoryStatsOrder | lib/data.ts:91 | records are sorted by count, descending; records with equal counts keep `Map` order; before sorting the names are the keys |
| Data.CategoryStatsEmpty | lib/data.ts:60-92 | an empty catalogue has no statistics |
| Data.TopDeals | lib/data.ts:94-99 | the discounted products, stably sorted by discount, cut at `limit`; its meaning is stated by TopDealsSize, TopDealsMembers, TopDealsOrder and TopDealsStable |
| Data.TopDealsSize | lib/data.ts:94-99 | at most `limit` deals; exactly `limit` when enough products have a discount; all of them when `limit` is large |
| Data.TopDealsMembers | lib/data.ts:94-99 | every deal is an input product with a non-null discount, at most as often as in the input |
| Data.TopDealsOrder | lib/data.ts:97-98 | deals are sorted by discount, descending, and no discounted product left out has a higher discount than one kept |
| Data.TopDealsStable | lib/data.ts:97 | deals with equal discounts keep their input order |
| Data.ZeroDiscountIsDeal | lib/data.ts:96 | a product with discount 0 is a deal |
| Data.WithSavings | lib/data.ts:104-107 | a product paired with its original price (0 when null) minus its price, unclamped |
| Data.Savers | lib/data.ts:102-107 | the products with a non-null original price, each paired by WithSavings; its meaning is stated by SaversMembers |
| Data.BiggestSavings | lib/data.ts:101-110 | the savers, stably sorted by savings, cut at `limit`; its meaning is stated by the four BiggestSavings lemmas |
| Data.SaversMembers | lib/data.ts:102-107 | the savings records are exactly the products with a non-null original price, each paired with original price minus price |
| Data.BiggestSavingsSize | lib/data.ts:101-110 | at most `limit` entries, exactly `limit` when enough products have an original price, and every saver when `limit` is large |
| Data.BiggestSavingsMembers | lib/data.ts:101-110 | every entry is a saver, at most as often as among the savers: an input product with an original price, carrying its unclamped savings |
| Data.BiggestSavingsOrder | lib/data.ts:108-109 | entries are sorted by savings, descending, and no omitted product saves more than one kept |
| Data.BiggestSavingsStable | lib/data.ts:108 | entries with equal savings keep their input order |
| Data.NegativeSavingsKept | lib/data.ts:106 | a product dearer than its original price is kept with negative savings |
| Utils.FormatDiscount | lib/utils.ts:15-18 | empty iff the discount is falsy; otherwise ends in "% OFF" after canonical digits (no leading zero) that read back as the discount |
| Utils.CalculateSavings | lib/utils.ts:20-23 | 0 for a falsy original price; otherwise price plus savings is the original price |
| Utils.CalculateSavingsSign | lib/utils.ts:20-23 | savings are positive iff the original price is truthy and above the price, negative iff it is truthy and below |
| Utils.SavingsAgreeUnlessZeroOriginal | lib/utils.ts:20-23 | `calculateSavings` agrees with the ranking savings of `getBiggestSavings` except for an original price of 0, which ranks at minus the price |
| StatsDashboard.TotalProducts | components/stats-dashboard.tsx:19 | the number of products; TotalProductsIsCategoryTotal ties it to the category counts |
| StatsDashboard.ProductsWithDiscount | components/stats-dashboard.tsx:20 | the number of products with a truthy discount; OnSaleAtMostWithDiscount compares it with lib/data.ts's test |
| StatsDashboard.AvgDiscount | components/stats-dashboard.tsx:21-23 | the mean of the truthy discounts, 0 when there are none; AvgDiscountBounds states its range |
| StatsDashboard.TotalSavings | components/stats-dashboard.tsx:24-26 | the reduce over the products with a truthy original price; TotalSavingsIsSumOfSavings ties it to calculateSavings |
| StatsDashboard.TotalProductsIsCategoryTotal | components/stats-dashboard.tsx:19 | the product total equals the sum of the category counts |
| StatsDashboard.TotalSavingsIsSumOfSavings | components/stats-dashboard.tsx:24-26 | the total savings equal `calculateSavings` summed over every product |
| StatsDashboard.NegativeSavingsLowerTotal | components/stats-dashboard.tsx:24-26 | a negative saving is added as it is |
| StatsDashboard.OnSaleAtMostWithDiscount | components/stats-dashboard.tsx:20 | the dashboard counts at most the products lib/data.ts treats as discounted, and strictly fewer when a discount is 0 |
| StatsDashboard.AvgDiscountBounds | components/stats-dashboard.tsx:21-23 | the average discount is 0 with nothing on sale, otherwise it lies between two truthy discounts |
| StatsDashboard.PieData | components/stats-dashboard.tsx:59-62 | the first 8 records as name and count; PieDataShape and PieDataTotal state its meaning |
| StatsDashboard.PieDataShape | components/stats-dashboard.tsx:59-62 | the pie holds the first min(8, n) categories in order, each valued at its count |
| StatsDashboard.PieDataTotal | components/stats-dashboard.tsx:59-62 | fed by getCategoryStats, the pie values add up to at most the number of products, and exactly that with at most 8 categories |
| StatsDashboard.Substring | components/stats-dashboard.tsx:65 | a prefix of length min(n, length) |
| StatsDashboard.BarData | components/stats-dashboard.tsx:64-67 | the first 10 records as a shortened name and the average discount; BarDataShape states its meaning |
| StatsDashboard.BarDataShape | components/stats-dashboard.tsx:64-67 | the bars are the first min(10, n) categories in order, each labelled by the first min(8, length) characters of its name, with its average discount |
| ProductCard.TierFor | components/product-card.tsx:36-38 | red iff >= 40, orange iff 30-39, yellow iff 20-29, blue iff below 20 |
| ProductCard.TierMonotone | components/product-card.tsx:36-38 | a larger discount never gets a lower tier |
| ProductCard.HasHighDiscount | components/product-card.tsx:18 | a truthy discount of at least 30; RingMatchesBadge ties it to the badge tiers |
| ProductCard.View | components/product-card.tsx:17-98 | ring iff truthy discount >= 30; badge iff the discount is truthy, coloured by its tier; original price iff truthy; save line iff the savings are positive; limit badge iff limit is non-empty; placeholder iff the image URL is empty |
| ProductCard.RingMatchesBadge | components/product-card.tsx:18-38 | the ring is drawn exactly on cards with a red or orange badge |
| ProductCard.SavingsNeedOriginalPrice | components/product-card.tsx:91-98 | a save line appears only beside a struck-through original price above the price, for their difference |
| ProductCard.DearerThanOriginal | components/product-card.tsx:91-98 | an original price below the price is shown struck through with no save line |
| ProductCard.DiscountEdgeCases | components/product-card.tsx:33-38 | a discount of 0 shows no badge yet is a deal for lib/data.ts; a negative discount shows a blue badge and no ring |
| LanguageSwitcher.IsActive | components/language-switcher.tsx:32-41 | an entry is marked iff its code is the current locale; AtMostOneActive states the consequence |
| LanguageSwitcher.AtMostOneActive | components/language-switcher.tsx:7-41 | at most one entry is marked active; a supported locale marks one |
| LanguageSwitcher.StripLocale | components/language-switcher.tsx:19 | the stripped path is never empty |
| LanguageSwitcher.TargetPath | components/language-switcher.tsx:19-22 | the target starts with "/" and the new locale, followed by a non-empty path |
| LanguageSwitcher.TargetWithoutLocale | components/language-switcher.tsx:19-22 | a path without "/locale" is kept whole after the new prefix |
| LanguageSwitcher.TargetUnderLocale | components/language-switcher.tsx:19-22 | "/locale" followed by a non-empty rest becomes "/newLocale" followed by the rest |
| LanguageSwitcher.TargetOfLocaleHome | components/language-switcher.tsx:19-22 | "/locale" becomes "/newLocale/" |
| LanguageSwitcher.SwitchBack | components/language-switcher.tsx:17-23 | switching language and back returns to the same path, except the home page gains a trailing slash |
| LanguageSwitcher.CutInLaterSegment | components/language-switcher.tsx:19 | the first "/locale" is cut even when it is not at the start: "/ko/enter" with locale en gives "/ko/koter" |
| LanguageSwitcher.CutInsideSegment | components/language-switcher.tsx:19 | the cut ignores segment boundaries: "/english" with locale en gives "/koglish" |
| CategoryFilter.GetCategoryConfig | components/category-filter.tsx:65-116 | the configuration is always one in the table: the entry of the lower-cased name when it is a key, and the fallback when it is not |
| CategoryFilter.ConfigIgnoresCase | components/category-filter.tsx:111 | names with the same lower-case form get the same configuration |
| CategoryFilter.DairyAnyCase | components/category-filter.tsx:73-111 | "Dairy" and "dairy" get the dairy entry |
| CategoryFilter.UnknownIsOther | components/category-filter.tsx:103-115 | an unknown name gets the fallback, which equals the "other" entry |
| CategoryFilter.DiaryIsDairy | components/category-filter.tsx:72-73 | the misspelled key "diary" carries the dairy configuration |
| CategoryFilter.MedecineIsMedicine | components/category-filter.tsx:79-80 | the misspelled key "medecine" carries the medicine configuration |
| CategoryFilter.ViataminIsVitamin | components/category-filter.tsx:91-92 | the misspelled key "viatamin" carries the vitamin configuration |
| CategoryFilter.IsSelected | components/category-filter.tsx:135 | a tile is selected iff its category is in the selection list |
| CategoryFilter.SelectedCounter | components/category-filter.tsx:124-127 | no counter for an empty selection, otherwise the selection's length |
| CategoryFilter.ApplyToggles | components/category-filter.tsx:174-176 | the toggle calls of the clear button applied one after another, one per selected entry in list order |
| CategoryFilter.ClearEmptiesSelection | components/category-filter.tsx:176 | when every toggle is applied to the previous result, a selection without duplicates ends empty |
| CategoryFilter.ClearWithDuplicateKeepsOne | components/category-filter.tsx:176 | with a duplicate, clearing by toggles leaves the category selected |
| FilterUpdates.Without | components/filters-horizontal.tsx:258 | the other categories remain and the removed one is gone |
| FilterUpdates.WithoutKeepsOthers | components/filters.tsx:90 | every other category keeps its number of occurrences |
| FilterUpdates.WithoutAbsent | components/filters-horizontal.tsx:258 | removing an absent category changes nothing |
| FilterUpdates.Toggle | components/filters-horizontal.tsx:256-261 | a selected category loses every copy, an unselected one is appended; ToggleMembership and the ToggleTwice lemmas state its meaning |
| FilterUpdates.ToggleMembership | components/filters-horizontal.tsx:256-261 | a category click flips the membership of that category only |
| FilterUpdates.ToggleTwiceUnselected | components/filters-horizontal.tsx:256-261 | clicking an unselected category appends it; a second click restores the list |
| FilterUpdates.ToggleTwiceSelected | components/filters-horizontal.tsx:256-261 | clicking a selected category twice removes every copy and then appends one at the end |
| FilterUpdates.ToggleRemovesDuplicates | components/filters-horizontal.tsx:258 | a duplicated category is removed in full |
| FilterUpdates.SetCategories | components/filters-horizontal.tsx:258-282 | only the categories change, to the given list |
| FilterUpdates.SetPriceRange | components/filters-horizontal.tsx:135-157 | only the price range changes, to the given bounds |
| FilterUpdates.SetMinDiscount | components/filters-horizontal.tsx:196-215 | only the minimum discount changes |
| FilterUpdates.SetSearchQuery | components/filters-horizontal.tsx:93-99 | only the search query changes |
| FilterUpdates.SetSortBy | components/filters-horizontal.tsx:316 | only the sort key changes |
| FilterUpdates.SetHasLimit | components/filters.tsx:151-169 | only the purchase-limit choice changes |
| FilterUpdates.UpdatesOverride | components/filters-horizontal.tsx:93 | rewriting a field with its own value is no change, and a later update of the same field wins |
| FilterUpdates.UpdatesCommute | components/filters-horizontal.tsx:93-196 | updates of different fields commute |
| FiltersHorizontal.PriceActive | components/filters-horizontal.tsx:78 | the price filter is in use iff the low bound is above 0 or the high bound below maxPrice; AnyPriceIsInactive and InactiveRangeLabel relate it to the label |
| FiltersHorizontal.DiscountActive | components/filters-horizontal.tsx:79 | the discount filter is in use iff the threshold is above 0; DiscountLabelAndActive relates it to the label |
| FiltersHorizontal.CategoriesActive | components/filters-horizontal.tsx:80 | the category filter is in use iff the list is non-empty |
| FiltersHorizontal.GetPriceLabel | components/filters-horizontal.tsx:64-69 | "Any price" iff the range is exactly (0, maxPrice); otherwise the two bounds |
| FiltersHorizontal.AnyPriceIsInactive | components/filters-horizontal.tsx:64-78 | "Any price" is shown only for an inactive price filter |
| FiltersHorizontal.InactiveRangeLabel | components/filters-horizontal.tsx:65-78 | an upper bound above maxPrice is inactive yet shows its range |
| FiltersHorizontal.GetDiscountLabel | components/filters-horizontal.tsx:72-75 | "Any discount" iff the threshold is 0; otherwise canonical digits (no leading zero) that read back as the threshold, followed by "%+ off" |
| FiltersHorizontal.DiscountLabelAndActive | components/filters-horizontal.tsx:72-79 | an active discount filter never reads "Any discount"; a negative threshold is inactive and still shows its number |
| FiltersHorizontal.SortTranslationKey | components/filters-horizontal.tsx:303-311 | the three chained first-occurrence replaces; the five OptionKey/PriceKey lemmas give its value on every option |
| FiltersHorizontal.NoMatchIn | components/filters-horizontal.tsx:311 | a pattern that cannot occur leaves the string unchanged |
| FiltersHorizontal.DiscountOptionKey | components/filters-horizontal.tsx:310-311 | discount is its own translation key |
| FiltersHorizontal.SavingsOptionKey | components/filters-horizontal.tsx:310-311 | savings is its own translation key |
| FiltersHorizontal.NameOptionKey | components/filters-horizontal.tsx:310-311 | name is its own translation key |
| FiltersHorizontal.PriceLowKey | components/filters-horizontal.tsx:311 | price-low gets the key priceLow |
| FiltersHorizontal.PriceHighKey | components/filters-horizontal.tsx:311 | price-high gets the key priceHigh |
| FiltersHorizontal.LongerPatternNoMatch | components/filters-horizontal.tsx:311 | the price_low step leaves price_high alone |
| FiltersHorizontal.SortTranslationKeyInjective | components/filters-horizontal.tsx:303-311 | different sort options get different keys |
| FiltersHorizontal.SortOptions | components/filters-horizontal.tsx:310 | the five options of the sort menu, in menu order |
| FiltersHorizontal.SortPicked | components/filters-horizontal.tsx:320-326 | an option is highlighted and ticked iff it is the current sort key |
| FiltersHorizontal.ExactlyOneSortPicked | components/filters-horizontal.tsx:310-326 | exactly one entry of the five-option menu is highlighted, whatever the current key |
| FiltersHorizontal.Apply | components/filters-horizontal.tsx:93-316 | each action changes only its own field; a clear action makes its filter inactive and its label "Any"; a category click flips that category |
| FiltersHorizontal.ClearShown | components/filters-horizontal.tsx:97-278 | the render conditions of the four clear buttons: non-empty query, price bounds off the defaults, threshold above 0, non-empty category list |
| FiltersHorizontal.ClearShownIffActive | components/filters-horizontal.tsx:78-278 | each popover's clear button is shown iff its filter is active |
| FiltersHorizontal.ClearActionsDeactivate | components/filters-horizontal.tsx:97-282 | pressing a clear button hides it, and every other clear button stays shown or hidden as before |
| FiltersHorizontal.ClickCategoryTwice | components/filters-horizontal.tsx:256-261 | clicking an unselected category twice restores the record |
| FiltersPanel.IsChecked | components/filters.tsx:85 | a category box is checked iff the category is selected |
| FiltersPanel.RadioChecked | components/filters.tsx:150-168 | a purchase-limit radio is checked iff its value is `hasLimit` |
| FiltersPanel.ExactlyOneRadioChecked | components/filters.tsx:150-168 | exactly one of the three purchase-limit radios is checked |
| FiltersPanel.CheckCategory | components/filters.tsx:86-91 | checking appends the category; unchecking removes it and keeps every other category's membership |
| FiltersPanel.CheckboxClickIsToggle | components/filters.tsx:85-91 | a click acts like the horizontal bar's toggle; checking and then unchecking an unselected category restores the record |
| FiltersPanel.ClearedFilters | components/filters.tsx:179-186 | the cleared record: no categories, range (0, maxPrice), discount 0, empty query, sorted by discount, any limit |
| FiltersPanel.Apply | components/filters.tsx:32-186 | each control changes only its own field to the chosen value; clear gives the cleared record |
| FiltersPanel.ClearFiltersIdempotent | components/filters.tsx:179-186 | clearing ignores the current filters, so clearing twice is clearing once |
| FiltersPanel.ClearedPanelState | components/filters.tsx:85-186 | after clearing no category box is checked and only the "all" radio is |
| JsArray.Filter | lib/data.ts:76 | a filter is never longer than its input |
| JsArray.FilterKeeps | lib/data.ts:76 | a filter keeps only input elements that pass, and every element that passes |
| JsArray.FilterCounts | lib/data.ts:76 | a filter keeps each passing element exactly as often as the input has it, and no other element |
| JsArray.Min | lib/data.ts:86 | `Math.min` is an element at most every element |
| JsArray.Max | lib/data.ts:87 | `Math.max` is an element at least every element |
| JsArray.MeanBounds | lib/data.ts:82 | a mean lies between the minimum and the maximum |
| JsArray.Slice | lib/data.ts:98 | `slice(0, end)` is a prefix, no longer than `end` |
| JsArray.SortDesc | lib/data.ts:91 | the sort is a permutation, sorted descending by key |
| JsArray.SortDescStable | lib/data.ts:91 | the sort is stable: elements with equal keys keep their order |
| JsArray.TopBySize | lib/data.ts:97-98 | sort-then-slice has at most `end` elements, exactly `end` when there are enough, and all when `end` is large |
| JsArray.TopByContents | lib/data.ts:97-98 | sort-then-slice keeps input elements, sorted, and none left out outranks one kept |
| JsArray.TopByStable | lib/data.ts:97-98 | sort-then-slice is a prefix of the stable sort |
| Text.IndexOf | components/language-switcher.tsx:19 | the first occurrence of the pattern, or none at all |
| Text.ReplaceFirst | components/language-switcher.tsx:19 | `replace` with a string pattern: the first occurrence replaced, or the string unchanged; ReplaceFirstAt and ReplaceFirstNoMatch state both cases |
| Text.ReplaceFirstAt | components/language-switcher.tsx:19 | `replace` cuts out the first occurrence |
| Text.ReplaceFirstNoMatch | components/language-switcher.tsx:19 | `replace` without an occurrence changes nothing |
| Text.ReplaceFirstPrefix | components/language-switcher.tsx:19 | a pattern at the front is replaced there |
| Text.IntToString | lib/utils.ts:17 | the template literal's digits: "0" for zero, otherwise no leading zero after the optional sign |
| Text.IntToStringRoundTrip | lib/utils.ts:17 | the decimal text of an integer parses back to it |
| Text.IntToStringInjective | lib/utils.ts:17 | different integers get different texts |
| Text.ToLower | components/category-filter.tsx:111 | same length, each character lower-cased |
| Text.ToLowerIdempotent | components/category-filter.tsx:111 | lower-casing twice is lower-casing once |

## Left out

- `fetchProducts` (lib/data.ts): network fetch and CSV parsing are I/O. The catalogue is a parameter.
- `formatCurrency` and `cn` (lib/utils.ts): locale currency formatting and class-name merging are library calls.
- `toFixed` and `toLocaleString` (stats-dashboard.tsx:31, 38, 45, 66): number formatting is not modelled. StatsDashboard.BarData keeps the average discount as an unrounded number where the source makes it text. GetPriceLabel returns the two bounds rather than their `$x - $y` text.
- NaN: `fetchProducts` builds `originalPrice` and `discount` with `parseFloat`/`parseInt` (lib/data.ts:43-44), which give NaN for a non-numeric cell. The model's `Option<real>` and `Option<int>` have no NaN, so the `|| 0` of lib/data.ts:97 only ever maps null to 0 here, and a NaN savings that would make the comparator of lib/data.ts:108 inconsistent cannot arise. The dashboard's `0 / 0 || 0` is modelled.
- Floating point: prices and savings are exact reals. JavaScript subtracts doubles, so rounding in `originalPrice - price` can create or break ties in `getBiggestSavings` and the dashboard's total; the model does not capture that.
- StatsDashboard.Substring and StatsDashboard.BarDataShape: a Dafny string is a sequence of Unicode scalar values, so lengths are counted in code points, not in the UTF-16 code units `substring(0, 8)` counts. For a name with a character outside the Basic Multilingual Plane (an emoji, say) the source cuts at a different place and can split a surrogate pair.
- ProductCard.View: for a discount or original price of exactly 0, React renders `{0 && ...}` as the text "0" (product-card.tsx:33, 91). The model states only that no badge and no struck-through price are shown, not the stray "0".
- Text.IntToString: JavaScript prints integers of 10^21 and above in exponent form; the model always prints plain digits.
- Text.ToLower: lower-cases ASCII letters only, not the full Unicode case mapping of `toLowerCase`.
- CategoryFilter.GetCategoryConfig: keys inherited from `Object.prototype` (such as "constructor") would be found by the source's lookup; the model ignores them.
- The horizontal bar's `categoryIcons[category] || FaBox` icon (filters-horizontal.tsx:251): only the icon choice, which is presentation.
- CategoryFilter.ClearEmptiesSelection: the toggle callback belongs to the caller and no caller is part of this model. The lemma assumes a callback that applies FilterUpdates.Toggle to the result of the previous call. A callback that reads the state from before the click would instead act on the same selection every time.
- Slider bounds and steps live in the slider widget, not in the records: the horizontal bar's discount slider has max 50 and step 1 (filters-horizontal.tsx:197-198), the side panel's has max 60 and step 5 (filters.tsx:131-132). The model's `minDiscount` is any integer and the price bounds any reals.
- The `sortBy: any` of the side panel's select (filters.tsx:44) is modelled as one of the five sort keys.
- JSX rendering, animation, translations (`t(...)`), popover open state and `router.push` (language-switcher.tsx:22): presentation and navigation side effects. LanguageSwitcher.TargetPath models only the computed path.
- The commented-out pills block of filters-horizontal.tsx (lines 338-404) is dead code.
- The in-place `stats.sort` of lib/data.ts:91 acts on a freshly built local array. Data.GetCategoryStats assigns the sorted sequence instead: no other reference to that array exists, so no aliasing is lost.
- The page's filter predicate, sort comparator and infinite-scroll pagination (app/[locale]/page.tsx, hooks/useInfiniteScroll.ts) are not part of this model.
