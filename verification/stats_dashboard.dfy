/** The summary figures and chart data of the statistics dashboard
    (components/stats-dashboard.tsx). Unlike lib/data.ts, the dashboard
    tests `discount` and `originalPrice` by truthiness, so 0 counts as
    absent. */
module StatsDashboard {
  import opened Types
  import opened JsArray
  import Utils
  import Data

  // ---------------------------------------------------------------------
  // The four summary figures (components/stats-dashboard.tsx:19-26)
  // ---------------------------------------------------------------------

  /** `products.length`. */
  function TotalProducts(products: seq<Product>): nat
  {
    |products|
  }

  /** The product total agrees with the category breakdown it is shown
      beside: it is the sum of the counts getCategoryStats reports. */
  lemma TotalProductsIsCategoryTotal(products: seq<Product>)
    ensures TotalProducts(products) == SumBy(Data.CategoryStatsSpec(products), Data.CountOf)
  {
    Data.CategoryCountsSum(products);
  }

  /** `p => p.discount`: a discount of null or 0 is filtered out. */
  function OnSale(p: Product): bool
  {
    TruthyInt(p.discount)
  }

  /** `p.discount || 0` as a number. */
  function DiscountOrZero(p: Product): real
  {
    if TruthyInt(p.discount) then p.discount.value as real else 0.0
  }

  /** `products.filter(p => p.discount).length`. */
  function ProductsWithDiscount(products: seq<Product>): nat
  {
    |Filter(products, OnSale)|
  }

  /** `sum / productsWithDiscount || 0`: the mean of the truthy discounts;
      with none, `0 / 0` is NaN and `|| 0` turns it into 0. */
  function AvgDiscount(products: seq<Product>): real
  {
    var onSale := Filter(products, OnSale);
    if |onSale| == 0 then 0.0 else Mean(MapSeq(onSale, DiscountOrZero))
  }

  /** `p => p.originalPrice`: an original price of null or 0 is filtered out. */
  function HasTruthyOriginal(p: Product): bool
  {
    TruthyReal(p.originalPrice)
  }

  /** `(p.originalPrice || 0) - p.price`. */
  function SavingOf(p: Product): real
  {
    (if TruthyReal(p.originalPrice) then p.originalPrice.value else 0.0) - p.price
  }

  /** The reduce over the products with a truthy original price. */
  function TotalSavings(products: seq<Product>): real
  {
    Sum(MapSeq(Filter(products, HasTruthyOriginal), SavingOf))
  }

  /** Reference definition: calculateSavings summed over every product. */
  function SavingsOfAll(products: seq<Product>): real
  {
    if products == [] then 0.0
    else Utils.CalculateSavings(products[0].originalPrice, products[0].price) + SavingsOfAll(products[1..])
  }

  /** The dashboard total is the sum of calculateSavings over all products:
      filtering out falsy original prices is the same as counting them 0.
      Negative savings are summed as they are. */
  lemma {:induction false} TotalSavingsIsSumOfSavings(products: seq<Product>)
    ensures TotalSavings(products) == SavingsOfAll(products)
  {
    if products != [] {
      var p := products[0];
      TotalSavingsIsSumOfSavings(products[1..]);
      var rest := Filter(products[1..], HasTruthyOriginal);
      if HasTruthyOriginal(p) {
        assert Filter(products, HasTruthyOriginal) == [p] + rest;
        assert ([p] + rest)[1..] == rest;
        var m := MapSeq([p] + rest, SavingOf);
        assert m == [SavingOf(p)] + MapSeq(rest, SavingOf);
        assert m[1..] == MapSeq(rest, SavingOf);
      } else {
        assert Filter(products, HasTruthyOriginal) == rest;
      }
    }
  }

  /** A product dearer than its original price lowers the total. */
  lemma NegativeSavingsLowerTotal(p: Product)
    requires p.originalPrice == Some(2.0) && p.price == 3.0
    ensures TotalSavings([p]) == -1.0
  {
    TotalSavingsIsSumOfSavings([p]);
  }

  /** Products counted as on sale here are a subset of those lib/data.ts
      counts (`!== null`); a discount of 0 is counted there and not here. */
  lemma {:induction false} OnSaleAtMostWithDiscount(products: seq<Product>)
    ensures ProductsWithDiscount(products) <= |Filter(products, Data.HasDiscount)|
    ensures (exists i :: 0 <= i < |products| && products[i].discount == Some(0)) ==>
      ProductsWithDiscount(products) < |Filter(products, Data.HasDiscount)|
  {
    if products != [] {
      OnSaleAtMostWithDiscount(products[1..]);
      if exists i :: 0 <= i < |products| && products[i].discount == Some(0) {
        var i :| 0 <= i < |products| && products[i].discount == Some(0);
        if i > 0 {
          assert products[1..][i - 1].discount == Some(0);
        }
      }
    }
  }

  /** The average discount is 0 when nothing is on sale, and otherwise lies
      between the smallest and the largest truthy discount. */
  lemma AvgDiscountBounds(products: seq<Product>)
    ensures ProductsWithDiscount(products) == 0 ==> AvgDiscount(products) == 0.0
    ensures ProductsWithDiscount(products) > 0 ==>
      exists lo, hi :: lo in products && hi in products && TruthyInt(lo.discount) && TruthyInt(hi.discount) &&
        lo.discount.value as real <= AvgDiscount(products) <= hi.discount.value as real
  {
    var onSale := Filter(products, OnSale);
    FilterKeeps(products, OnSale);
    if |onSale| > 0 {
      var ds := MapSeq(onSale, DiscountOrZero);
      MeanBounds(ds);
      var i :| 0 <= i < |ds| && ds[i] == Min(ds);
      MapSeqAt(onSale, DiscountOrZero, i);
      var j :| 0 <= j < |ds| && ds[j] == Max(ds);
      MapSeqAt(onSale, DiscountOrZero, j);
      assert onSale[i] in products && onSale[j] in products;
    }
  }

  // ---------------------------------------------------------------------
  // Chart data (components/stats-dashboard.tsx:59-67)
  // ---------------------------------------------------------------------

  /** `{ name: cat.name, value: cat.productCount }`. */
  datatype PieSlice = PieSlice(name: string, value: nat)

  function ToSlice(cat: CategoryStats): PieSlice
  {
    PieSlice(cat.name, cat.productCount)
  }

  /** `categoryStats.slice(0, 8).map(...)`. */
  function PieData(categoryStats: seq<CategoryStats>): seq<PieSlice>
  {
    MapSeq(Slice(categoryStats, 8), ToSlice)
  }

  /** The pie has the first min(8, n) categories, in order, each valued at
      its product count. */
  lemma PieDataShape(categoryStats: seq<CategoryStats>)
    ensures |PieData(categoryStats)| == if |categoryStats| < 8 then |categoryStats| else 8
    ensures forall i :: 0 <= i < |PieData(categoryStats)| ==>
      PieData(categoryStats)[i] == PieSlice(categoryStats[i].name, categoryStats[i].productCount)
  {
    forall i | 0 <= i < |PieData(categoryStats)|
      ensures PieData(categoryStats)[i] == PieSlice(categoryStats[i].name, categoryStats[i].productCount)
    {
      MapSeqAt(Slice(categoryStats, 8), ToSlice, i);
    }
  }

  function SliceValue(s: PieSlice): int
  {
    s.value
  }

  lemma {:induction false} SumByNonNegativePrefix(s: seq<CategoryStats>, m: nat)
    requires m <= |s|
    ensures SumBy(s[..m], Data.CountOf) <= SumBy(s, Data.CountOf)
  {
    if m > 0 {
      assert s[..m][1..] == s[1..][..m - 1];
      SumByNonNegativePrefix(s[1..], m - 1);
    } else {
      SumByNonNegative(s);
    }
  }

  lemma {:induction false} SumByNonNegative(s: seq<CategoryStats>)
    ensures SumBy(s, Data.CountOf) >= 0
  {
    if s != [] {
      SumByNonNegative(s[1..]);
    }
  }

  lemma {:induction false} SliceValuesAreCounts(s: seq<CategoryStats>)
    ensures SumBy(MapSeq(s, ToSlice), SliceValue) == SumBy(s, Data.CountOf)
  {
    if s != [] {
      SliceValuesAreCounts(s[1..]);
      assert MapSeq(s, ToSlice)[1..] == MapSeq(s[1..], ToSlice);
    }
  }

  /** Fed with getCategoryStats, the pie shares out at most the whole
      catalogue: its values add up to no more than the number of products,
      and to exactly that number when there are at most 8 categories. */
  lemma PieDataTotal(products: seq<Product>)
    ensures SumBy(PieData(Data.CategoryStatsSpec(products)), SliceValue) <= |products|
    ensures |Data.CategoryStatsSpec(products)| <= 8 ==>
      SumBy(PieData(Data.CategoryStatsSpec(products)), SliceValue) == |products|
  {
    var cs := Data.CategoryStatsSpec(products);
    var kept := Slice(cs, 8);
    Data.CategoryCountsSum(products);
    SliceValuesAreCounts(kept);
    SumByNonNegativePrefix(cs, |kept|);
    if |cs| <= 8 {
      assert kept == cs;
    }
  }

  /** `{ name: cat.name.substring(0, 8), discount: cat.avgDiscount }`; the
      discount is kept unrounded. */
  datatype Bar = Bar(name: string, discount: real)

  /** `s.substring(0, n)` for a non-negative `n`. */
  function Substring(s: string, n: nat): (r: string)
    ensures r <= s
    ensures |r| == if |s| < n then |s| else n
  {
    if |s| < n then s else s[..n]
  }

  function ToBar(cat: CategoryStats): Bar
  {
    Bar(Substring(cat.name, 8), cat.avgDiscount)
  }

  /** `categoryStats.slice(0, 10).map(...)`. */
  function BarData(categoryStats: seq<CategoryStats>): seq<Bar>
  {
    MapSeq(Slice(categoryStats, 10), ToBar)
  }

  /** The bar chart has the first min(10, n) categories, in order; each
      label is the first min(8, length) characters of the category name. */
  lemma BarDataShape(categoryStats: seq<CategoryStats>)
    ensures |BarData(categoryStats)| == if |categoryStats| < 10 then |categoryStats| else 10
    ensures forall i :: 0 <= i < |BarData(categoryStats)| ==>
      && BarData(categoryStats)[i].name <= categoryStats[i].name
      && |BarData(categoryStats)[i].name| == (if |categoryStats[i].name| < 8 then |categoryStats[i].name| else 8)
      && BarData(categoryStats)[i].discount == categoryStats[i].avgDiscount
  {
    forall i | 0 <= i < |BarData(categoryStats)|
      ensures BarData(categoryStats)[i] == ToBar(categoryStats[i])
    {
      MapSeqAt(Slice(categoryStats, 10), ToBar, i);
    }
  }
}
