/**
 What an order is charged, told from what goes in: which lines a discount reaches, why a code is
 refused, what each type of discount takes off, and what shipping adds.
 */
module Charges {
  import opened Options
  import opened Arith
  import opened Sums
  import opened Money
  import opened Allocation
  import opened Pricing
  import opened CheapestUnits
  import opened Reconciliation

  // ---- what a discount reaches ---------------------------------------------

  /** The line is not given away already, not excluded by product or variant, and within the scope. */
  predicate Reaches(discount: PricingDiscount, line: PricingLine) {
    && !line.isGift
    && (discount.excludedProductIds.Some? ==> line.productId !in discount.excludedProductIds.value)
    && (discount.excludedVariantIds.Some? ==> line.variantId !in discount.excludedVariantIds.value)
    && (discount.appliesTo == Products ==> line.productId in discount.targetProductIds)
    && (discount.appliesTo == Collections ==>
          exists id :: id in line.collectionIds && id in discount.targetCollectionIds)
    && (discount.appliesTo == Variants ==>
          discount.targetVariantIds.Some? && line.variantId in discount.targetVariantIds.value)
  }

  function Reached(lines: seq<PricingLine>, discount: PricingDiscount): (r: seq<bool>)
    ensures |r| == |lines|
  {
    seq(|lines|, i requires 0 <= i < |lines| => Reaches(discount, lines[i]))
  }

  /** What the reached lines cost, and zero for the others. */
  function ReachedSubtotals(lines: seq<PricingLine>, discount: PricingDiscount): (r: seq<int>)
    ensures |r| == |lines|
  {
    seq(|lines|, i requires 0 <= i < |lines| =>
      if Reaches(discount, lines[i]) then lines[i].unitPriceCents * lines[i].quantity else 0)
  }

  lemma {:induction false} EligibleMeans(line: PricingLine, discount: PricingDiscount)
    ensures IsLineEligible(line, Some(discount)) <==> Reaches(discount, line)
  {
  }

  lemma {:induction false} EligibleAreReached(lines: seq<PricingLine>, discount: PricingDiscount)
    ensures Eligibility(lines, Some(discount)) == Reached(lines, discount)
    ensures EligibleSubtotals(lines, Some(discount)) == ReachedSubtotals(lines, discount)
  {
    hide IsLineEligible, Reaches;
    forall i | 0 <= i < |lines|
      ensures IsLineEligible(lines[i], Some(discount)) == Reaches(discount, lines[i])
    {
      EligibleMeans(lines[i], discount);
    }
  }

  /** 100 percent off, without a minimum or a ceiling. */
  predicate TakesAll(discount: PricingDiscount) {
    && discount.kind == Percentage && discount.valueBps == Some(10000) && discount.maxDiscountCents.None?
    && discount.minimumSubtotalCents.None? && discount.minimumQuantity.None?
  }

  /** It takes the whole subtotal of every line it reaches, and nothing of any other. */
  lemma {:induction false} AllOffWhatIsReached(input: PricingInput, i: nat)
    requires input.discount.Some? && TakesAll(input.discount.value) && i < |input.lines|
    ensures var line := input.lines[i];
      Priced(input).lines[i].discountCents
        == if Reaches(input.discount.value, line) then line.unitPriceCents * line.quantity else 0
  {
    hide EvaluateDiscount, Reaches;
    var lines, d := input.lines, input.discount.value;
    var weights := EligibleSubtotals(lines, Some(d));
    EligibleAreReached(lines, d);
    SubtotalsAreNatural(lines, Eligibility(lines, Some(d)));
    SumAtLeast(weights, i);
    AcceptedWhenItCosts(lines, d);
    if Sum(weights) > 0 {
      WholeRate(Sum(weights));
      MaskDropsNothing(lines, Some(d));
      AllocatedAgainstWeights(Sum(weights), weights, i);
    }
  }

  lemma WholeRate(amount: nat)
    ensures ApplyBps(amount, 10000) == amount
  {
    RoundsToNearest(amount * 10000, 10000, amount);
  }

  /** Without minimums everything depends on whether an eligible line costs something. */
  lemma {:induction false} AcceptedWhenItCosts(lines: seq<PricingLine>, d: PricingDiscount)
    requires TakesAll(d)
    ensures var e := EvaluateDiscount(lines, Some(d));
      if Sum(EligibleSubtotals(lines, Some(d))) > 0 then e.rejection.None? else e.perLine == Zeros(|lines|)
  {
    hide IsLineEligible, DiscountAmount;
  }

  // ---- why a code is refused -----------------------------------------------

  /** The reason reported is the first that holds, and a refused code takes nothing off. */
  lemma {:induction false} RejectionMeans(input: PricingInput)
    requires input.discount.Some?
    ensures var d, result := input.discount.value, Priced(input);
      var tooCheap := d.minimumSubtotalCents.Some? && result.subtotalCents < d.minimumSubtotalCents.value;
      var tooFew := d.minimumQuantity.Some? && Sum(Quantities(input.lines)) < d.minimumQuantity.value;
      var nothing := d.kind != FreeShipping && forall line :: line in input.lines && Reaches(d, line) ==>
        line.unitPriceCents == 0 || line.quantity == 0;
      result.rejection ==
        if tooCheap then Some(MinimumSubtotalNotMet)
        else if tooFew then Some(MinimumQuantityNotMet)
        else if nothing then Some(NoEligibleItems)
        else None
    ensures var result := Priced(input);
      result.rejection.Some? ==>
        result.discountTotalCents == 0 && forall line :: line in result.lines ==> line.discountCents == 0
  {
    var lines, d := input.lines, input.discount.value;
    NothingReached(lines, d);
    RefusedTakesNothing(lines, d);
    EligibleSubtotalOf(lines, Some(d));
    hide Reaches, AllocateDiscount, PriceLine, EligibleSubtotals, IsLineEligible;
  }

  lemma {:induction false} NothingReached(lines: seq<PricingLine>, d: PricingDiscount)
    ensures Sum(EligibleSubtotals(lines, Some(d))) <= 0 <==>
      forall line :: line in lines && Reaches(d, line) ==> line.unitPriceCents == 0 || line.quantity == 0
  {
    hide Reaches;
    var weights := EligibleSubtotals(lines, Some(d));
    EligibleAreReached(lines, d);
    SubtotalsAreNatural(lines, Eligibility(lines, Some(d)));
    PositiveSum(weights);
    forall i | 0 <= i < |lines|
      ensures weights[i] > 0 <==> Reaches(d, lines[i]) && lines[i].unitPriceCents > 0 && lines[i].quantity > 0
    {
      PositiveProduct(lines[i].unitPriceCents, lines[i].quantity);
    }
    if exists line :: line in lines && Reaches(d, line) && line.unitPriceCents > 0 && line.quantity > 0 {
      var line :| line in lines && Reaches(d, line) && line.unitPriceCents > 0 && line.quantity > 0;
      var i :| 0 <= i < |lines| && lines[i] == line;
      assert weights[i] > 0;
    }
  }

  lemma PositiveProduct(a: nat, b: nat)
    ensures a * b > 0 <==> a > 0 && b > 0
  {
    if a > 0 && b > 0 {
      MulMonotone(1, a, b);
    }
  }

  lemma {:induction false} RefusedTakesNothing(lines: seq<PricingLine>, d: PricingDiscount)
    ensures var e := EvaluateDiscount(lines, Some(d));
      e.rejection.Some? ==> e.perLine == Zeros(|lines|) && e.totalCents == 0
  {
    hide RejectionReason, IsLineEligible;
    SumConstant(Zeros(|lines|), 0);
  }

  // ---- what each type takes off --------------------------------------------

  /** get units for every whole group of buy + get among n. */
  ghost predicate IsFreeCount(count: nat, n: nat, buy: int, get: int) {
    if buy <= 0 || get <= 0 then count == 0
    else exists groups: nat :: count == groups * get && GroupsIn(groups, n, buy + get)
  }

  predicate GroupsIn(groups: nat, n: nat, size: int) {
    groups * size <= n < groups * size + size
  }

  lemma FreeCountIs(n: nat, buy: int, get: int)
    ensures IsFreeCount(FreeCount(n, buy, get), n, buy, get)
  {
    if buy > 0 && get > 0 {
      DivMod(n, buy + get);
      assert GroupsIn(n / (buy + get), n, buy + get);
      FreeCountMeans(n, buy, get, n / (buy + get));
    }
  }

  /** The lines carry count units off their price, and no count units that the discount reaches cost less. */
  ghost predicate CheapestFree(perLine: seq<int>, count: nat, lines: seq<PricingLine>, reached: seq<bool>)
    requires |lines| == |reached| == |perLine|
  {
    && (exists take :: Choice(take, count, lines, reached) && perLine == Prices(take, lines))
    && (forall other :: Choice(other, count, lines, reached) ==> Sum(perLine) <= Sum(Prices(other, lines)))
  }

  /**
   What an accepted discount takes off the lines. Free shipping: nothing. Buy X get Y: the cheapest units
   reached, as many as the groups give. The others: the amount of the discount, allocated over what is reached.
   */
  lemma {:induction false} AcceptedTakes(lines: seq<PricingLine>, d: PricingDiscount)
    requires EvaluateDiscount(lines, Some(d)).rejection.None?
    ensures var e, weights := EvaluateDiscount(lines, Some(d)), ReachedSubtotals(lines, d);
      match d.kind
      case FreeShipping => e.perLine == Zeros(|lines|)
      case BuyXGetY =>
        exists count: nat ::
          && IsFreeCount(count, EligibleUnits(lines, Reached(lines, d)), d.buyQuantity.GetOr(0), d.getQuantity.GetOr(0))
          && CheapestFree(e.perLine, count, lines, Reached(lines, d))
      case _ => e.perLine == Allocated(DiscountAmount(d, Sum(weights)), weights)
  {
    EligibleAreReached(lines, d);
    match d.kind {
      case FreeShipping => ShippingOnly(lines, d);
      case BuyXGetY =>
        hide EligibleUnits, Choice, Reached, FreeCount, IsFreeCount;
        var n := EligibleUnits(lines, Reached(lines, d));
        FreeCountIs(n, d.buyQuantity.GetOr(0), d.getQuantity.GetOr(0));
        FreeOfDiscount(lines, d);
        CheapestOfDiscount(lines, d, FreeCount(n, d.buyQuantity.GetOr(0), d.getQuantity.GetOr(0)));
      case _ =>
        hide EvaluateDiscount;
        MaskDropsNothing(lines, Some(d));
    }
  }

  lemma {:induction false} ShippingOnly(lines: seq<PricingLine>, d: PricingDiscount)
    requires d.kind == FreeShipping
    ensures EvaluateDiscount(lines, Some(d)).perLine == Zeros(|lines|)
  {
    hide RejectionReason, IsLineEligible;
  }

  lemma {:induction false} FreeOfDiscount(lines: seq<PricingLine>, d: PricingDiscount)
    requires d.kind == BuyXGetY && EvaluateDiscount(lines, Some(d)).rejection.None?
    ensures EvaluateDiscount(lines, Some(d)).perLine == FreeUnits(d, lines, Eligibility(lines, Some(d)))
  {
    hide RejectionReason, IsLineEligible, FreeUnits;
  }

  lemma {:induction false} CheapestOfDiscount(lines: seq<PricingLine>, d: PricingDiscount, count: nat)
    requires count == FreeCount(EligibleUnits(lines, Reached(lines, d)), d.buyQuantity.GetOr(0), d.getQuantity.GetOr(0))
    ensures CheapestFree(FreeUnits(d, lines, Reached(lines, d)), count, lines, Reached(lines, d))
  {
    hide Reached, FreeCount, FreeUnits, Units, Holdings;
    var reached := Reached(lines, d);
    UnitCount(lines, reached);
    FreeUnitsArePriced(d, lines, reached, count);
    forall other | Choice(other, count, lines, reached)
      ensures Sum(FreeUnits(d, lines, reached)) <= Sum(Prices(other, lines))
    {
      FreeUnitsAreCheapest(d, lines, reached, count, other);
    }
  }

  // ---- what shipping adds --------------------------------------------------

  /** A free shipping code whose minimums are met. */
  predicate ShipsFree(input: PricingInput) {
    input.discount.Some? && input.discount.value.kind == FreeShipping && MinimumsMet(input.lines, input.discount.value)
  }

  /** The chosen rate is charged if something has to be shipped and shipping is not free; otherwise nothing is. */
  lemma {:induction false} ShippingMeans(input: PricingInput)
    ensures Priced(input).shippingTotalCents ==
      if input.shippingRate.Some? && (exists line :: line in input.lines && line.requiresShipping) && !ShipsFree(input)
      then input.shippingRate.value.priceCents
      else 0
  {
    hide PricedLines, AllocateDiscount, IsLineEligible;
    if input.discount.Some? {
      AcceptedIff(input.lines, input.discount.value);
    }
  }

  /** One tax for each rate that applies to shipping, in rate order, if shipping costs anything. */
  ghost predicate ShippingTaxed(taxes: seq<int>, shipping: int, input: PricingInput) {
    var owed := if shipping == 0 then [] else Filter(input.taxRates, (rate: TaxRate) => rate.appliesToShipping);
    && |taxes| == |owed|
    && forall k :: 0 <= k < |owed| ==> TaxIs(taxes[k], shipping, owed[k].rateBps, input.taxesIncludedInShipping)
  }

  /** What the goods come to: never less than nothing, and the tax of the lines on top when prices exclude it. */
  lemma {:induction false} GoodsOnly(input: PricingInput)
    requires input.shippingRate.None?
    ensures var result := Priced(input); var left := result.subtotalCents - result.discountTotalCents;
      && result.shippingTotalCents == 0
      && result.taxTotalCents == Sum(LineTaxes(result.lines))
      && result.totalCents
        == (if left < 0 then 0 else left) + if input.pricesIncludeTax then 0 else result.taxTotalCents
  {
    hide EvaluateDiscount, PricedLines;
  }

  /**
   What the rate changes: nothing but the shipping, the tax on it, and the total, which moves by the price
   charged and, when prices exclude tax, by the tax on it.
   */
  lemma {:induction false} ShippingAdds(input: PricingInput) returns (taxes: seq<int>)
    ensures var result, goods := Priced(input), Priced(input.(shippingRate := None));
      var shipping := result.shippingTotalCents;
      && ShippingTaxed(taxes, shipping, input)
      && result == goods.(
           shippingTotalCents := shipping,
           taxTotalCents := goods.taxTotalCents + Sum(taxes),
           totalCents := goods.totalCents + shipping + if input.pricesIncludeTax then 0 else Sum(taxes))
  {
    hide EvaluateDiscount, PricedLines, TaxOf, TaxIs;
    var shipping := Priced(input).shippingTotalCents;
    taxes := ShippingTaxes(input, shipping);
    NoShipping(input.(shippingRate := None));
    TaxesOfShipping(input, shipping);
  }

  lemma {:induction false} TaxesOfShipping(input: PricingInput, shipping: nat)
    ensures ShippingTaxed(ShippingTaxes(input, shipping), shipping, input)
  {
    hide TaxOf, TaxIs;
    var owed := Filter(input.taxRates, (rate: TaxRate) => rate.appliesToShipping);
    forall k | 0 <= k < |owed|
      ensures TaxIs(TaxOf(shipping, owed[k].rateBps, input.taxesIncludedInShipping), shipping, owed[k].rateBps,
                    input.taxesIncludedInShipping)
    {
      TaxOfIs(shipping, owed[k].rateBps, input.taxesIncludedInShipping);
    }
  }

  /** Every line is priced in its place, under its own ids, at price times quantity. */
  lemma {:induction false} LinesKept(input: PricingInput, i: nat)
    requires i < |input.lines|
    ensures |Priced(input).lines| == |input.lines|
    ensures var line, priced := input.lines[i], Priced(input).lines[i];
      && priced.id == line.id && priced.variantId == line.variantId && priced.productId == line.productId
      && priced.quantity == line.quantity && priced.unitPriceCents == line.unitPriceCents
      && priced.subtotalCents == line.unitPriceCents * line.quantity
  {
    hide EvaluateDiscount, ApplicableRates;
  }
}
