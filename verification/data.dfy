/** Catalogue aggregation and ranking (lib/data.ts): per-category statistics,
    the best discounts and the biggest savings. */
module Data {
  import opened Types
  import opened JsArray

  // ---------------------------------------------------------------------
  // Grouping by category (the Map built at lib/data.ts:61-69)
  // ---------------------------------------------------------------------

  /** Some product of `ps` has exactly the category string `c`. */
  predicate HasCategory(ps: seq<Product>, c: string)
  {
    exists p :: p in ps && p.category == c
  }

  /** The distinct category strings of `ps` in first-encounter order: the
      key order of the source's Map, which iterates in insertion order.
      Strings are compared exactly (no case folding, no trimming). */
  function Categories(ps: seq<Product>): (cs: seq<string>)
    ensures forall i, j :: 0 <= i < j < |cs| ==> cs[i] != cs[j]
    ensures forall c :: c in cs <==> HasCategory(ps, c)
  {
    if ps == [] then []
    else
      var q := ps[..|ps| - 1];
      var c := ps[|ps| - 1].category;
      assert ps == q + [ps[|ps| - 1]];
      assert forall d :: HasCategory(ps, d) <==> HasCategory(q, d) || d == c;
      var cs := Categories(q);
      if c in cs then cs else cs + [c]
  }

  /** The products of category `c`, in input order (`categoryMap.get(c)`). */
  function Group(ps: seq<Product>, c: string): (g: seq<Product>)
    ensures |g| > 0 <==> HasCategory(ps, c)
    ensures forall p :: p in g ==> p in ps && p.category == c
  {
    if ps == [] then []
    else
      var q := ps[..|ps| - 1];
      assert ps == q + [ps[|ps| - 1]];
      Group(q, c) + (if ps[|ps| - 1].category == c then [ps[|ps| - 1]] else [])
  }

  /** A group is complete: it holds every product of category `c`, as often
      as the input does, and nothing else. */
  lemma {:induction false} GroupExact(ps: seq<Product>, c: string)
    ensures forall p :: multiset(Group(ps, c))[p] == if p.category == c then multiset(ps)[p] else 0
  {
    if ps != [] {
      var q := ps[..|ps| - 1];
      var last := ps[|ps| - 1];
      assert ps == q + [last];
      GroupExact(q, c);
      assert multiset(ps) == multiset(q) + multiset{last};
    }
  }

  // ---------------------------------------------------------------------
  // One category's statistics (lib/data.ts:74-88)
  // ---------------------------------------------------------------------

  function PriceOf(p: Product): real
  {
    p.price
  }

  /** `p.discount !== null`: a discount of 0 counts as present. */
  function HasDiscount(p: Product): bool
  {
    p.discount.Some?
  }

  /** `p.discount || 0` as a number: null reads as 0. */
  function DiscountKey(p: Product): real
  {
    match p.discount
    case Some(d) => d as real
    case None => 0.0
  }

  /** The non-null discounts of a group, in order. */
  function Discounts(g: seq<Product>): seq<real>
  {
    MapSeq(Filter(g, HasDiscount), DiscountKey)
  }

  /** The record pushed for one category: count, mean price, mean of the
      non-null discounts (0 when there is none), cheapest and dearest price. */
  function StatsOf(name: string, g: seq<Product>): CategoryStats
    requires |g| > 0
  {
    var prices := MapSeq(g, PriceOf);
    var discounts := Discounts(g);
    CategoryStats(
      name,
      |g|,
      Mean(prices),
      if |discounts| > 0 then Mean(discounts) else 0.0,
      Min(prices),
      Max(prices))
  }

  /** The count and price figures of a category record: the number of its
      products, and a mean that lies between a cheapest and a dearest price,
      both taken by some product of the group. */
  lemma StatsOfPrices(name: string, g: seq<Product>)
    requires |g| > 0
    ensures StatsOf(name, g).name == name && StatsOf(name, g).productCount == |g|
    ensures StatsOf(name, g).minPrice <= StatsOf(name, g).avgPrice <= StatsOf(name, g).maxPrice
    ensures forall p :: p in g ==> StatsOf(name, g).minPrice <= p.price <= StatsOf(name, g).maxPrice
    ensures exists p :: p in g && p.price == StatsOf(name, g).minPrice
    ensures exists p :: p in g && p.price == StatsOf(name, g).maxPrice
  {
    var prices := MapSeq(g, PriceOf);
    MeanBounds(prices);
    forall p | p in g
      ensures p.price in prices
    {
      var i :| 0 <= i < |g| && g[i] == p;
      MapSeqAt(g, PriceOf, i);
    }
    var i :| 0 <= i < |prices| && prices[i] == Min(prices);
    MapSeqAt(g, PriceOf, i);
    assert g[i] in g;
    var j :| 0 <= j < |prices| && prices[j] == Max(prices);
    MapSeqAt(g, PriceOf, j);
    assert g[j] in g;
  }

  /** The discount figure of a category record: 0 when no product of the
      group has a discount, otherwise between the smallest and the largest
      non-null discount of the group (a discount of 0 takes part). */
  lemma StatsOfDiscount(name: string, g: seq<Product>)
    requires |g| > 0
    ensures (forall p :: p in g ==> p.discount.None?) ==> StatsOf(name, g).avgDiscount == 0.0
    ensures (exists p :: p in g && p.discount.Some?) ==>
      exists lo, hi :: lo in g && hi in g && lo.discount.Some? && hi.discount.Some? &&
        lo.discount.value as real <= StatsOf(name, g).avgDiscount <= hi.discount.value as real
  {
    var withD := Filter(g, HasDiscount);
    var ds := Discounts(g);
    FilterKeeps(g, HasDiscount);
    if |withD| > 0 {
      MeanBounds(ds);
      var i :| 0 <= i < |ds| && ds[i] == Min(ds);
      MapSeqAt(withD, DiscountKey, i);
      var j :| 0 <= j < |ds| && ds[j] == Max(ds);
      MapSeqAt(withD, DiscountKey, j);
      assert withD[i] in g && withD[j] in g;
    }
  }

  /** A discount of 0 is counted in the mean (it is not null). */
  lemma ZeroDiscountCounts(a: Product, b: Product)
    requires a.discount == Some(0) && b.discount == Some(10)
    ensures StatsOf(a.category, [a, b]).avgDiscount == 5.0
  {
    var g := [a, b];
    assert g[1..] == [b];
    assert Filter(g, HasDiscount) == g;
    assert MapSeq(g, DiscountKey) == [0.0] + MapSeq([b], DiscountKey);
    assert MapSeq([b], DiscountKey) == [10.0] + MapSeq([b][1..], DiscountKey);
    assert Discounts(g) == [0.0, 10.0];
    assert Sum([0.0, 10.0]) == 0.0 + Sum([10.0]);
  }

  // ---------------------------------------------------------------------
  // getCategoryStats (lib/data.ts:60-92)
  // ---------------------------------------------------------------------

  /** The records pushed by the second forEach, one per key of `cs`. */
  function StatsList(cs: seq<string>, ps: seq<Product>): (r: seq<CategoryStats>)
    requires forall c :: c in cs ==> HasCategory(ps, c)
    ensures |r| == |cs|
  {
    if cs == [] then []
    else
      assert forall c :: c in cs[1..] ==> c in cs;
      [StatsOf(cs[0], Group(ps, cs[0]))] + StatsList(cs[1..], ps)
  }

  lemma {:induction false} StatsListAt(cs: seq<string>, ps: seq<Product>, k: nat)
    requires forall c :: c in cs ==> HasCategory(ps, c)
    requires k < |cs|
    ensures StatsList(cs, ps)[k] == StatsOf(cs[k], Group(ps, cs[k]))
  {
    if k > 0 {
      assert forall c :: c in cs[1..] ==> c in cs;
      StatsListAt(cs[1..], ps, k - 1);
    }
  }

  function CountOf(s: CategoryStats): int
  {
    s.productCount
  }

  /** The sort key `b.productCount - a.productCount` compares on. */
  function CountKey(s: CategoryStats): real
  {
    s.productCount as real
  }

  function NameOf(s: CategoryStats): string
  {
    s.name
  }

  /** The result of getCategoryStats: the per-category records in key order,
      stably sorted by product count, largest first. */
  function CategoryStatsSpec(ps: seq<Product>): seq<CategoryStats>
  {
    SortDesc(StatsList(Categories(ps), ps), CountKey)
  }

  /** How the keys and groups of a prefix grow by one product. */
  lemma PrefixStep(ps: seq<Product>, i: nat)
    requires i < |ps|
    ensures Categories(ps[..i + 1]) ==
      if ps[i].category in Categories(ps[..i]) then Categories(ps[..i]) else Categories(ps[..i]) + [ps[i].category]
    ensures forall c :: Group(ps[..i + 1], c) == Group(ps[..i], c) + (if ps[i].category == c then [ps[i]] else [])
    ensures ps[i].category !in Categories(ps[..i]) ==> Group(ps[..i], ps[i].category) == []
  {
    var q := ps[..i + 1];
    assert q[..|q| - 1] == ps[..i];
    assert q[|q| - 1] == ps[i];
  }

  /** One step of the first pass: appending product `i` to its category's
      list, and adding the category to the key order the first time, turns
      the keys and lists of `products[..i]` into those of `products[..i + 1]`. */
  lemma GroupStep(products: seq<Product>, i: nat, keys: seq<string>, groups: map<string, seq<Product>>,
                  keys': seq<string>, groups': map<string, seq<Product>>)
    requires i < |products|
    requires keys == Categories(products[..i])
    requires forall c :: c in groups <==> c in keys
    requires forall c :: c in groups ==> groups[c] == Group(products[..i], c)
    requires keys' == if products[i].category in groups then keys else keys + [products[i].category]
    requires groups' == groups[products[i].category :=
      (if products[i].category in groups then groups[products[i].category] else []) + [products[i]]]
    ensures keys' == Categories(products[..i + 1])
    ensures forall c :: c in groups' <==> c in keys'
    ensures forall c :: c in groups' ==> groups'[c] == Group(products[..i + 1], c)
  {
    var p := products[i];
    PrefixStep(products, i);
    assert (p.category in groups) == (p.category in keys);
    forall c | c in groups'
      ensures groups'[c] == Group(products[..i + 1], c)
    {
      if c != p.category {
        assert groups'[c] == groups[c];
      }
    }
  }

  /** The first pass of getCategoryStats (lib/data.ts:61-69): every product
      is appended to its category's list, a category being added to the Map
      the first time it is met. `keys` is the Map's insertion order. */
  method GroupByCategory(products: seq<Product>) returns (keys: seq<string>, groups: map<string, seq<Product>>)
    ensures keys == Categories(products)
    ensures forall c :: c in groups <==> HasCategory(products, c)
    ensures forall c :: c in groups ==> groups[c] == Group(products, c)
  {
    keys := [];
    groups := map[];
    for i := 0 to |products|
      invariant keys == Categories(products[..i])
      invariant forall c :: c in groups <==> c in keys
      invariant forall c :: c in groups ==> groups[c] == Group(products[..i], c)
    {
      var product := products[i];
      var category := product.category;
      var members := if category in groups then groups[category] else [];
      var keys' := if category in groups then keys else keys + [category];
      var groups' := groups[category := members + [product]];
      GroupStep(products, i, keys, groups, keys', groups');
      keys, groups := keys', groups';
    }
    assert products[..|products|] == products;
  }

  /** The second forEach of getCategoryStats (lib/data.ts:73-89): one
      record pushed per key, in the Map's insertion order. */
  method PushRecords(products: seq<Product>, keys: seq<string>, groups: map<string, seq<Product>>)
    returns (unsorted: seq<CategoryStats>)
    requires forall c :: c in keys ==> HasCategory(products, c)
    requires forall c :: c in keys ==> c in groups && groups[c] == Group(products, c)
    ensures unsorted == StatsList(keys, products)
  {
    ghost var records := StatsList(keys, products);
    unsorted := [];
    for j := 0 to |keys|
      invariant unsorted == records[..j]
    {
      var categoryName := keys[j];
      StatsListAt(keys, products, j);
      PrefixSnoc(records, j);
      unsorted := unsorted + [StatsOf(categoryName, groups[categoryName])];
    }
    assert unsorted == records[..|keys|];
  }

  /** getCategoryStats: the products are grouped by category, a record is
      pushed per key in the Map's insertion order, then the records are
      sorted by count, descending; the sort is stable, so equal counts keep
      first-encounter order. */
  method GetCategoryStats(products: seq<Product>) returns (stats: seq<CategoryStats>)
    ensures stats == CategoryStatsSpec(products)
    ensures SumBy(stats, CountOf) == |products|
    ensures SortedDesc(stats, CountKey)
    ensures forall s :: s in stats ==> HasCategory(products, s.name) && s.productCount >= 1
    ensures products == [] ==> stats == []
  {
    var keys, groups := GroupByCategory(products);
    var unsorted := PushRecords(products, keys, groups);
    stats := SortDesc(unsorted, CountKey);
    CategoryCountsSum(products);
    CategoryStatsEntries(products);
  }

  // ---------------------------------------------------------------------
  // Properties of getCategoryStats
  // ---------------------------------------------------------------------

  /** The sizes of the groups of `cs`. */
  function SizesOver(cs: seq<string>, ps: seq<Product>): int
  {
    if cs == [] then 0 else |Group(ps, cs[0])| + SizesOver(cs[1..], ps)
  }

  lemma {:induction false} StatsListCounts(cs: seq<string>, ps: seq<Product>)
    requires forall c :: c in cs ==> HasCategory(ps, c)
    ensures SumBy(StatsList(cs, ps), CountOf) == SizesOver(cs, ps)
  {
    if cs != [] {
      assert forall c :: c in cs[1..] ==> c in cs;
      StatsListCounts(cs[1..], ps);
      var r := StatsList(cs, ps);
      assert r[1..] == StatsList(cs[1..], ps);
    }
  }

  /** Appending a product extends its own category's group only. */
  lemma GroupSnoc(q: seq<Product>, p: Product, c: string)
    ensures Group(q + [p], c) == Group(q, c) + (if p.category == c then [p] else [])
  {
    assert (q + [p])[..|q + [p]| - 1] == q;
  }

  lemma {:induction false} SizesOverAppendProduct(cs: seq<string>, q: seq<Product>, p: Product)
    requires forall i, j :: 0 <= i < j < |cs| ==> cs[i] != cs[j]
    ensures SizesOver(cs, q + [p]) == SizesOver(cs, q) + (if p.category in cs then 1 else 0)
  {
    if cs != [] {
      var c := cs[0];
      var rest := cs[1..];
      GroupSnoc(q, p, c);
      assert forall i, j :: 0 <= i < j < |rest| ==> rest[i] != rest[j] by {
        forall i, j | 0 <= i < j < |rest| ensures rest[i] != rest[j] {
          assert rest[i] == cs[i + 1] && rest[j] == cs[j + 1];
        }
      }
      SizesOverAppendProduct(rest, q, p);
      assert cs == [c] + rest;
      assert (p.category in cs) == (p.category == c || p.category in rest);
      if p.category == c {
        assert p.category !in rest by {
          forall k | 0 <= k < |rest| ensures rest[k] != c {
            assert rest[k] == cs[k + 1];
          }
        }
      }
    }
  }

  lemma {:induction false} SizesOverAppendCategory(cs: seq<string>, c: string, ps: seq<Product>)
    ensures SizesOver(cs + [c], ps) == SizesOver(cs, ps) + |Group(ps, c)|
  {
    if cs != [] {
      assert (cs + [c])[1..] == cs[1..] + [c];
      SizesOverAppendCategory(cs[1..], c, ps);
    } else {
      assert cs + [c] == [c];
    }
  }

  /** Every product lands in exactly one group. */
  lemma {:induction false} GroupSizesCoverProducts(ps: seq<Product>)
    ensures SizesOver(Categories(ps), ps) == |ps|
  {
    if ps != [] {
      var q := ps[..|ps| - 1];
      var p := ps[|ps| - 1];
      assert ps == q + [p];
      GroupSizesCoverProducts(q);
      var d := Categories(q);
      SizesOverAppendProduct(d, q, p);
      if p.category !in d {
        SizesOverAppendCategory(d, p.category, ps);
        assert !HasCategory(q, p.category);
        assert |Group(ps, p.category)| == |Group(q, p.category)| + 1;
      }
    }
  }

  /** Count conservation: the product counts add up to the number of products. */
  lemma CategoryCountsSum(ps: seq<Product>)
    ensures SumBy(CategoryStatsSpec(ps), CountOf) == |ps|
  {
    var cs := Categories(ps);
    var u := StatsList(cs, ps);
    SumByPerm(u, CategoryStatsSpec(ps), CountOf);
    StatsListCounts(cs, ps);
    GroupSizesCoverProducts(ps);
  }

  /** Every entry is the record of its own group: a real category of the
      input, at least one product, and the statistics of its group, which
      holds every product carrying that category string and no other. */
  lemma CategoryStatsEntries(ps: seq<Product>)
    ensures forall s :: s in CategoryStatsSpec(ps) ==>
      HasCategory(ps, s.name) && s == StatsOf(s.name, Group(ps, s.name)) && s.productCount >= 1
  {
    var cs := Categories(ps);
    var u := StatsList(cs, ps);
    forall s | s in CategoryStatsSpec(ps)
      ensures HasCategory(ps, s.name) && s == StatsOf(s.name, Group(ps, s.name))
    {
      assert s in multiset(u);
      var k :| 0 <= k < |u| && u[k] == s;
      StatsListAt(cs, ps, k);
    }
  }

  lemma {:induction false} StatsListNames(cs: seq<string>, ps: seq<Product>)
    requires forall c :: c in cs ==> HasCategory(ps, c)
    ensures MapSeq(StatsList(cs, ps), NameOf) == cs
  {
    if cs != [] {
      assert forall c :: c in cs[1..] ==> c in cs;
      StatsListNames(cs[1..], ps);
      assert StatsList(cs, ps)[1..] == StatsList(cs[1..], ps);
    }
  }

  lemma {:induction false} DistinctMultiplicity(cs: seq<string>, c: string)
    requires forall i, j :: 0 <= i < j < |cs| ==> cs[i] != cs[j]
    ensures multiset(cs)[c] == if c in cs then 1 else 0
  {
    if cs != [] {
      assert cs == [cs[0]] + cs[1..];
      DistinctMultiplicity(cs[1..], c);
    }
  }

  /** Exactly one entry per distinct category string, and none for a string
      no product carries. */
  lemma CategoryStatsOnePerCategory(ps: seq<Product>, c: string)
    ensures multiset(MapSeq(CategoryStatsSpec(ps), NameOf))[c] == if HasCategory(ps, c) then 1 else 0
  {
    var cs := Categories(ps);
    var u := StatsList(cs, ps);
    MapSeqPerm(u, CategoryStatsSpec(ps), NameOf);
    StatsListNames(cs, ps);
    DistinctMultiplicity(cs, c);
  }

  /** Ordering: counts never increase along the result, and entries with the
      same count appear in the order their categories were first met. */
  lemma CategoryStatsOrder(ps: seq<Product>, k: real)
    ensures SortedDesc(CategoryStatsSpec(ps), CountKey)
    ensures WithKey(CategoryStatsSpec(ps), CountKey, k) == WithKey(StatsList(Categories(ps), ps), CountKey, k)
    ensures MapSeq(StatsList(Categories(ps), ps), NameOf) == Categories(ps)
  {
    SortDescStable(StatsList(Categories(ps), ps), CountKey, k);
    StatsListNames(Categories(ps), ps);
  }

  /** Position of the first product with category `c` (or |ps| if none). */
  function FirstIndex(ps: seq<Product>, c: string): (r: nat)
    ensures r <= |ps|
    ensures forall k :: 0 <= k < r ==> ps[k].category != c
    ensures r < |ps| ==> ps[r].category == c
    ensures r < |ps| <==> HasCategory(ps, c)
  {
    if ps == [] then 0
    else if ps[0].category == c then 0
    else
      assert ps == [ps[0]] + ps[1..];
      1 + FirstIndex(ps[1..], c)
  }

  lemma FirstIndexAppend(q: seq<Product>, p: Product, c: string)
    ensures HasCategory(q, c) ==> FirstIndex(q + [p], c) == FirstIndex(q, c)
    ensures !HasCategory(q, c) && p.category == c ==> FirstIndex(q + [p], c) == |q|
  {
    var r := FirstIndex(q + [p], c);
    var s := FirstIndex(q, c);
    if HasCategory(q, c) {
      assert (q + [p])[s] == q[s];
    } else if p.category == c {
      assert (q + [p])[|q|] == p;
    }
  }

  /** The Map's key order is first-encounter order. */
  lemma {:induction false} CategoriesInEncounterOrder(ps: seq<Product>)
    ensures forall i, j :: 0 <= i < j < |Categories(ps)| ==>
      FirstIndex(ps, Categories(ps)[i]) < FirstIndex(ps, Categories(ps)[j])
  {
    if ps != [] {
      var q := ps[..|ps| - 1];
      var p := ps[|ps| - 1];
      assert ps == q + [p];
      CategoriesInEncounterOrder(q);
      var d := Categories(q);
      var cs := Categories(ps);
      forall i, j | 0 <= i < j < |cs|
        ensures FirstIndex(ps, cs[i]) < FirstIndex(ps, cs[j])
      {
        assert cs[i] in d;
        FirstIndexAppend(q, p, cs[i]);
        if j < |d| {
          assert cs[j] == d[j];
          FirstIndexAppend(q, p, cs[j]);
        } else {
          assert cs[j] == p.category && !HasCategory(q, p.category);
          FirstIndexAppend(q, p, cs[j]);
        }
      }
    }
  }

  /** No products, no categories. */
  lemma CategoryStatsEmpty()
    ensures CategoryStatsSpec([]) == []
  {
  }

  // ---------------------------------------------------------------------
  // getTopDeals (lib/data.ts:94-99)
  // ---------------------------------------------------------------------

  /** The `limit` (default 10) products with a non-null discount, largest
      discount first, ties in input order. */
  function TopDeals(products: seq<Product>, limit: int := 10): seq<Product>
  {
    TopBy(Filter(products, HasDiscount), DiscountKey, limit)
  }

  /** At most `limit` deals, exactly `limit` when there are that many
      discounted products, and all of them when `limit` reaches past them. */
  lemma TopDealsSize(products: seq<Product>, limit: int)
    ensures limit >= 0 ==> |TopDeals(products, limit)| <= limit
    ensures 0 <= limit <= |Filter(products, HasDiscount)| ==> |TopDeals(products, limit)| == limit
    ensures limit >= |Filter(products, HasDiscount)| ==>
      multiset(TopDeals(products, limit)) == multiset(Filter(products, HasDiscount))
  {
    TopBySize(Filter(products, HasDiscount), DiscountKey, limit);
  }

  /** Every deal is an input product with a non-null discount. */
  lemma TopDealsMembers(products: seq<Product>, limit: int)
    ensures multiset(TopDeals(products, limit)) <= multiset(products)
    ensures forall p :: p in TopDeals(products, limit) ==> p.discount.Some?
  {
    var withDiscount := Filter(products, HasDiscount);
    var r := TopDeals(products, limit);
    TopByContents(withDiscount, DiscountKey, limit);
    FilterKeeps(products, HasDiscount);
    forall p | p in r
      ensures p.discount.Some?
    {
      assert p in multiset(withDiscount);
      var k :| 0 <= k < |withDiscount| && withDiscount[k] == p;
    }
  }

  /** Deals are in non-increasing discount order, and no discounted product
      left out has a higher discount than one kept. */
  lemma TopDealsOrder(products: seq<Product>, limit: int)
    ensures SortedDesc(TopDeals(products, limit), DiscountKey)
    ensures forall p, q ::
      (p in products && p.discount.Some? && p !in TopDeals(products, limit) && q in TopDeals(products, limit))
      ==> DiscountKey(q) >= DiscountKey(p)
  {
    var withDiscount := Filter(products, HasDiscount);
    var r := TopDeals(products, limit);
    TopByContents(withDiscount, DiscountKey, limit);
    FilterKeeps(products, HasDiscount);
    forall p, q | p in products && p.discount.Some? && p !in r && q in r
      ensures DiscountKey(q) >= DiscountKey(p)
    {
      var k :| 0 <= k < |products| && products[k] == p;
      assert p in withDiscount;
    }
  }

  /** For each discount value, the deals kept are the first such products
      in input order. */
  lemma TopDealsStable(products: seq<Product>, limit: int, k: real)
    ensures WithKey(TopDeals(products, limit), DiscountKey, k) <= WithKey(Filter(products, HasDiscount), DiscountKey, k)
  {
    TopByStable(Filter(products, HasDiscount), DiscountKey, limit, k);
  }

  /** A discount of 0 is a deal (the test is `!== null`). */
  lemma ZeroDiscountIsDeal(p: Product)
    requires p.discount == Some(0)
    ensures TopDeals([p], 1) == [p]
  {
    assert Filter([p], HasDiscount) == [p];
  }

  // ---------------------------------------------------------------------
  // getBiggestSavings (lib/data.ts:101-110)
  // ---------------------------------------------------------------------

  /** `{ ...p, savings }`: a product together with its computed savings. */
  datatype ProductWithSavings = ProductWithSavings(product: Product, savings: real)

  /** `p.originalPrice !== null`: an original price of 0 counts as present. */
  function HasOriginalPrice(p: Product): bool
  {
    p.originalPrice.Some?
  }

  /** `savings: (p.originalPrice || 0) - p.price`, not clamped at 0. */
  function WithSavings(p: Product): ProductWithSavings
  {
    var original := match p.originalPrice case Some(o) => o case None => 0.0;
    ProductWithSavings(p, original - p.price)
  }

  function SavingsKey(x: ProductWithSavings): real
  {
    x.savings
  }

  /** The products with a non-null original price, paired with their savings. */
  function Savers(products: seq<Product>): seq<ProductWithSavings>
  {
    MapSeq(Filter(products, HasOriginalPrice), WithSavings)
  }

  /** The savers are exactly the products with an original price, each
      paired with original price minus price. */
  lemma SaversMembers(products: seq<Product>)
    ensures forall x :: x in Savers(products) ==>
      && x.product in products && x.product.originalPrice.Some?
      && x.savings == x.product.originalPrice.value - x.product.price
    ensures forall p :: p in products && p.originalPrice.Some? ==> WithSavings(p) in Savers(products)
  {
    var withOriginal := Filter(products, HasOriginalPrice);
    var savers := Savers(products);
    FilterKeeps(products, HasOriginalPrice);
    forall x | x in savers
      ensures x.product in products && x.product.originalPrice.Some?
      ensures x.savings == x.product.originalPrice.value - x.product.price
    {
      var k :| 0 <= k < |savers| && savers[k] == x;
      MapSeqAt(withOriginal, WithSavings, k);
    }
    forall p | p in products && p.originalPrice.Some?
      ensures WithSavings(p) in savers
    {
      var k :| 0 <= k < |products| && products[k] == p;
      var w :| 0 <= w < |withOriginal| && withOriginal[w] == p;
      MapSeqAt(withOriginal, WithSavings, w);
    }
  }

  /** The `limit` (default 10) products with an original price and the
      largest savings, largest first, ties in input order. */
  function BiggestSavings(products: seq<Product>, limit: int := 10): seq<ProductWithSavings>
  {
    TopBy(Savers(products), SavingsKey, limit)
  }

  /** At most `limit` entries, exactly `limit` when that many products have
      an original price, and every saver when `limit` reaches past them. */
  lemma BiggestSavingsSize(products: seq<Product>, limit: int)
    ensures limit >= 0 ==> |BiggestSavings(products, limit)| <= limit
    ensures 0 <= limit <= |Filter(products, HasOriginalPrice)| ==> |BiggestSavings(products, limit)| == limit
    ensures limit >= |Filter(products, HasOriginalPrice)| ==>
      multiset(BiggestSavings(products, limit)) == multiset(Savers(products))
  {
    TopBySize(Savers(products), SavingsKey, limit);
  }

  /** Every entry is a saver, at most as often as it occurs among the
      savers: an input product with an original price, paired with
      original price minus price. */
  lemma BiggestSavingsMembers(products: seq<Product>, limit: int)
    ensures multiset(BiggestSavings(products, limit)) <= multiset(Savers(products))
    ensures forall x :: x in BiggestSavings(products, limit) ==>
      && x.product in products && x.product.originalPrice.Some?
      && x.savings == x.product.originalPrice.value - x.product.price
  {
    var r := BiggestSavings(products, limit);
    TopByContents(Savers(products), SavingsKey, limit);
    SaversMembers(products);
    forall x | x in r
      ensures x in Savers(products)
    {
      assert x in multiset(Savers(products));
    }
  }

  /** Entries are in non-increasing savings order, and no product with an
      original price that is left out saves more than one kept. */
  lemma BiggestSavingsOrder(products: seq<Product>, limit: int)
    ensures SortedDesc(BiggestSavings(products, limit), SavingsKey)
    ensures forall p, q ::
      (p in products && p.originalPrice.Some? && WithSavings(p) !in BiggestSavings(products, limit) &&
       q in BiggestSavings(products, limit))
      ==> q.savings >= WithSavings(p).savings
  {
    var savers := Savers(products);
    var r := BiggestSavings(products, limit);
    TopByContents(savers, SavingsKey, limit);
    SaversMembers(products);
    forall p, q | p in products && p.originalPrice.Some? && WithSavings(p) !in r && q in r
      ensures q.savings >= WithSavings(p).savings
    {
      assert WithSavings(p) in savers;
      assert SavingsKey(q) >= SavingsKey(WithSavings(p));
    }
  }

  /** For each savings value, the entries kept are the first such products
      in input order. */
  lemma BiggestSavingsStable(products: seq<Product>, limit: int, k: real)
    ensures WithKey(BiggestSavings(products, limit), SavingsKey, k) <= WithKey(Savers(products), SavingsKey, k)
  {
    TopByStable(Savers(products), SavingsKey, limit, k);
  }

  /** Savings are not clamped: a product dearer than its original price
      is ranked with a negative saving. */
  lemma NegativeSavingsKept(p: Product)
    requires p.originalPrice == Some(2.0) && p.price == 3.0
    ensures BiggestSavings([p], 1) == [ProductWithSavings(p, -1.0)]
  {
    assert Filter([p], HasOriginalPrice) == [p];
  }
}
