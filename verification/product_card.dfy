/** What a product card shows (components/product-card.tsx): the colour
    tier of the discount badge, the red ring of a high discount, and the
    conditions under which the original price, the savings line, the limit
    badge and the image placeholder appear. Like the dashboard, the card
    tests `discount` and `originalPrice` by truthiness. */
module ProductCard {
  import opened Types
  import Utils
  import Data

  /** The badge colours: bg-red-500, bg-orange-500, bg-yellow-500,
      bg-blue-500. */
  datatype Tier = Red | Orange | Yellow | Blue

  /** The badge colour for a discount (lines 36-38): at least 40 red, at
      least 30 orange, at least 20 yellow, anything below (negative
      discounts included) blue. */
  function TierFor(discount: int): (t: Tier)
    ensures t == Red <==> discount >= 40
    ensures t == Orange <==> 30 <= discount < 40
    ensures t == Yellow <==> 20 <= discount < 30
    ensures t == Blue <==> discount < 20
  {
    if discount >= 40 then Red
    else if discount >= 30 then Orange
    else if discount >= 20 then Yellow
    else Blue
  }

  /** The tiers ordered from the lowest discount to the highest. */
  function Rank(t: Tier): nat
  {
    match t
    case Blue => 0
    case Yellow => 1
    case Orange => 2
    case Red => 3
  }

  /** A larger discount never gets a lower tier. */
  lemma TierMonotone(d1: int, d2: int)
    requires d1 <= d2
    ensures Rank(TierFor(d1)) <= Rank(TierFor(d2))
  {
  }

  /** Everything the card decides from the product. `savings` is the
      amount of the save line when it is shown. */
  datatype CardView = CardView(
    ring: bool,
    badge: Option<Tier>,
    originalPrice: Option<real>,
    savings: Option<real>,
    limitBadge: bool,
    placeholder: bool
  )

  /** `product.discount && product.discount >= 30` (lines 18, 29). */
  predicate HasHighDiscount(p: Product)
  {
    TruthyInt(p.discount) && p.discount.value >= 30
  }

  /** The card of a product (lines 17-18, 29, 33-38, 46, 72, 91, 98). */
  function View(p: Product): (v: CardView)
    ensures v.ring <==> TruthyInt(p.discount) && p.discount.value >= 30
    ensures v.badge.Some? <==> TruthyInt(p.discount)
    ensures v.badge.Some? ==> v.badge.value == TierFor(p.discount.value)
    ensures v.originalPrice.Some? <==> TruthyReal(p.originalPrice)
    ensures v.originalPrice.Some? ==> v.originalPrice == p.originalPrice
    ensures v.savings.Some? <==> Utils.CalculateSavings(p.originalPrice, p.price) > 0.0
    ensures v.savings.Some? ==> v.savings.value == Utils.CalculateSavings(p.originalPrice, p.price)
    ensures v.limitBadge <==> p.limit != ""
    ensures v.placeholder <==> p.imageUrl == ""
  {
    var savings := Utils.CalculateSavings(p.originalPrice, p.price);
    CardView(
      HasHighDiscount(p),
      if TruthyInt(p.discount) then Some(TierFor(p.discount.value)) else None,
      if TruthyReal(p.originalPrice) then p.originalPrice else None,
      if savings > 0.0 then Some(savings) else None,
      p.limit != "",
      p.imageUrl == "")
  }

  /** The ring is drawn exactly on the cards with a red or orange badge. */
  lemma RingMatchesBadge(p: Product)
    ensures View(p).ring <==> View(p).badge == Some(Red) || View(p).badge == Some(Orange)
  {
  }

  /** A save line is only shown beside a struck-through original price,
      and the amount is that price less the current one. */
  lemma SavingsNeedOriginalPrice(p: Product)
    requires View(p).savings.Some?
    ensures View(p).originalPrice.Some?
    ensures View(p).originalPrice.value > p.price
    ensures View(p).savings.value == View(p).originalPrice.value - p.price
  {
    Utils.CalculateSavingsSign(p.originalPrice, p.price);
  }

  /** An original price below the current price is struck through but no
      save line is shown. */
  lemma DearerThanOriginal(p: Product)
    requires p.originalPrice == Some(2.0) && p.price == 3.0
    ensures View(p).originalPrice == Some(2.0) && View(p).savings.None?
  {
  }

  /** A discount of 0 gets no badge on its card, yet lib/data.ts counts it
      as a deal; a negative discount gets a blue badge and no ring. */
  lemma DiscountEdgeCases(p: Product, q: Product)
    requires p.discount == Some(0)
    requires q.discount.Some? && q.discount.value < 0
    ensures View(p).badge.None? && Data.HasDiscount(p)
    ensures View(q).badge == Some(Blue) && !View(q).ring
  {
  }
}
