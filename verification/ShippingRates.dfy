/** Choosing a shipping rate (src/lib/pricing.ts, selectShippingRate). */
module ShippingRates {
  import opened Options

  datatype Rate = Rate(id: string, name: string, priceCents: int, minSubtotal: Option<int>, maxSubtotal: Option<int>,
                       minWeight: Option<int>, maxWeight: Option<int>)

  predicate AtLeast(x: int, bound: Option<int>) {
    bound.Some? ==> x >= bound.value
  }

  predicate AtMost(x: int, bound: Option<int>) {
    bound.Some? ==> x <= bound.value
  }

  /** The cart lies within the rate's price and weight bands, bounds included. */
  predicate Fits(rate: Rate, subtotal: int, weight: int) {
    AtLeast(subtotal, rate.minSubtotal) && AtMost(subtotal, rate.maxSubtotal)
    && AtLeast(weight, rate.minWeight) && AtMost(weight, rate.maxWeight)
  }

  /** The reduce: a later rate replaces the best only when it is strictly cheaper. */
  function Cheapest(rates: seq<Rate>): Rate
    requires rates != []
  {
    var n := |rates| - 1;
    if n == 0 then rates[0] else
      var best := Cheapest(rates[..n]);
      if rates[n].priceCents < best.priceCents then rates[n] else best
  }

  function SelectShippingRate(rates: seq<Rate>, subtotal: int, weight: int): Option<Rate> {
    var eligible := Filter(rates, rate => Fits(rate, subtotal, weight));
    if eligible == [] then None else Some(Cheapest(eligible))
  }

  /** The chosen rate is the first of the cheapest that fit; there is none exactly when nothing fits. */
  lemma {:induction false} SelectsFirstCheapest(rates: seq<Rate>, subtotal: int, weight: int)
    ensures match SelectShippingRate(rates, subtotal, weight)
      case None => forall j :: 0 <= j < |rates| ==> RuledOut(rates[j], subtotal, weight)
      case Some(rate) => exists i :: 0 <= i < |rates| && rates[i] == rate && IsFirstCheapest(rates, i, subtotal, weight)
  {
    if rates != [] {
      var n := |rates| - 1;
      var before := Filter(rates[..n], rate => Fits(rate, subtotal, weight));
      SelectsFirstCheapest(rates[..n], subtotal, weight);
      if Fits(rates[n], subtotal, weight) {
        assert (before + [rates[n]])[..|before|] == before;
        if before == [] || rates[n].priceCents < Cheapest(before).priceCents {
          assert IsFirstCheapest(rates, n, subtotal, weight);
        }
      } else {
        assert before + [] == before;
      }
      if before != [] {
        var i :| 0 <= i < n && rates[..n][i] == Cheapest(before) && IsFirstCheapest(rates[..n], i, subtotal, weight);
        assert IsFirstCheapest(rates, i, subtotal, weight)
          || (Fits(rates[n], subtotal, weight) && rates[n].priceCents < rates[i].priceCents);
      }
    }
  }

  /** A bound of the rate is broken: too cheap or dear a cart, too light or heavy a one. */
  predicate RuledOut(rate: Rate, subtotal: int, weight: int) {
    || (rate.minSubtotal.Some? && subtotal < rate.minSubtotal.value)
    || (rate.maxSubtotal.Some? && rate.maxSubtotal.value < subtotal)
    || (rate.minWeight.Some? && weight < rate.minWeight.value)
    || (rate.maxWeight.Some? && rate.maxWeight.value < weight)
  }

  predicate IsFirstCheapest(rates: seq<Rate>, i: nat, subtotal: int, weight: int)
    requires i < |rates|
  {
    && !RuledOut(rates[i], subtotal, weight)
    && forall j :: 0 <= j < |rates| && !RuledOut(rates[j], subtotal, weight) ==>
         if j < i then rates[i].priceCents < rates[j].priceCents else rates[i].priceCents <= rates[j].priceCents
  }
}
