/** The formatting and savings helpers of lib/utils.ts. */
module Utils {
  import opened Types
  import opened Text
  import Data

  /** `formatDiscount`: empty for a falsy discount (null or 0), otherwise
      the integer's canonical decimal text followed by "% OFF". */
  function FormatDiscount(discount: Option<int>): (s: string)
    ensures s == "" <==> !TruthyInt(discount)
    ensures s != "" ==> |s| > 5 && s[|s| - 5..] == "% OFF" && ParseInt(s[..|s| - 5]) == Some(discount.value)
    ensures s != "" ==> NoLeadingZero(s[..|s| - 5])
  {
    if !TruthyInt(discount) then ""
    else
      var text := IntToString(discount.value);
      IntToStringRoundTrip(discount.value);
      assert (text + "% OFF")[..|text|] == text;
      text + "% OFF"
  }

  /** `calculateSavings`: 0 for a falsy original price (null or 0),
      otherwise original price minus price, not clamped at 0. */
  function CalculateSavings(originalPrice: Option<real>, price: real): (r: real)
    ensures !TruthyReal(originalPrice) ==> r == 0.0
    ensures TruthyReal(originalPrice) ==> price + r == originalPrice.value
  {
    if !TruthyReal(originalPrice) then 0.0 else originalPrice.value - price
  }

  /** The savings are negative exactly when the price is above a truthy
      original price: nothing clamps them. */
  lemma CalculateSavingsSign(originalPrice: Option<real>, price: real)
    ensures CalculateSavings(originalPrice, price) > 0.0 <==> TruthyReal(originalPrice) && originalPrice.value > price
    ensures CalculateSavings(originalPrice, price) < 0.0 <==> TruthyReal(originalPrice) && originalPrice.value < price
  {
  }

  /** calculateSavings and the savings of getBiggestSavings agree for every
      product except one whose original price is 0: the ranking tests
      `!== null` and so ranks it at minus its price, where calculateSavings
      gives 0. */
  lemma SavingsAgreeUnlessZeroOriginal(p: Product)
    ensures p.originalPrice.Some? && p.originalPrice.value != 0.0 ==>
      CalculateSavings(p.originalPrice, p.price) == Data.WithSavings(p).savings
    ensures p.originalPrice == Some(0.0) ==>
      CalculateSavings(p.originalPrice, p.price) == 0.0 && Data.WithSavings(p).savings == -p.price
  {
  }
}
