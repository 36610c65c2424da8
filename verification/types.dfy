/** Record shapes of the catalogue (lib/types.ts). No behaviour lives here. */
module Types {

  /** A nullable value: `null` in the source is `None`. */
  datatype Option<T> = None | Some(value: T)

  /** JavaScript truthiness of a nullable integer: `null` and `0` are falsy. */
  predicate TruthyInt(x: Option<int>)
  {
    x.Some? && x.value != 0
  }

  /** JavaScript truthiness of a nullable number: `null` and `0` are falsy. */
  predicate TruthyReal(x: Option<real>)
  {
    x.Some? && x.value != 0.0
  }

  /** One catalogue entry. Numbers are unbounded reals (prices) or integers
      (the percent discount, which the loader reads with parseInt). */
  datatype Product = Product(
    category: string,
    id: string,
    name: string,
    price: real,
    originalPrice: Option<real>,
    discount: Option<int>,
    currency: string,
    displayPrice: string,
    storeId: string,
    storeName: string,
    itemMsid: string,
    stockLevel: string,
    limit: string,
    imageUrl: string
  )

  /** Per-category aggregate produced by getCategoryStats. */
  datatype CategoryStats = CategoryStats(
    name: string,
    productCount: nat,
    avgPrice: real,
    avgDiscount: real,
    minPrice: real,
    maxPrice: real
  )

  /** The five sort keys a user can pick. */
  datatype SortBy = ByDiscount | ByPriceLow | ByPriceHigh | ByName | BySavings

  /** The string literal the source stores for each sort key. */
  function SortByText(s: SortBy): string
  {
    match s
    case ByDiscount => "discount"
    case ByPriceLow => "price-low"
    case ByPriceHigh => "price-high"
    case ByName => "name"
    case BySavings => "savings"
  }

  /** The user's filter and sort choices; `hasLimit` is tri-state. */
  datatype FilterOptions = FilterOptions(
    categories: seq<string>,
    priceRange: (real, real),
    minDiscount: int,
    searchQuery: string,
    sortBy: SortBy,
    hasLimit: Option<bool>
  )

  /** The fields of FilterOptions, to say which one an update touches. */
  datatype Field = CategoriesField | PriceRangeField | MinDiscountField
                 | SearchQueryField | SortByField | HasLimitField

  /** `g` agrees with `f` on every field except possibly `changed`. */
  predicate AgreeExcept(f: FilterOptions, g: FilterOptions, changed: Field)
  {
    && (changed != CategoriesField ==> g.categories == f.categories)
    && (changed != PriceRangeField ==> g.priceRange == f.priceRange)
    && (changed != MinDiscountField ==> g.minDiscount == f.minDiscount)
    && (changed != SearchQueryField ==> g.searchQuery == f.searchQuery)
    && (changed != SortByField ==> g.sortBy == f.sortBy)
    && (changed != HasLimitField ==> g.hasLimit == f.hasLimit)
  }
}
