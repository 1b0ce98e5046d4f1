/**
 The engine's central promise: what the lines are charged adds up to what the order
 is charged, to the last minor unit.
 */
module Reconciliation {
  import opened Options
  import opened Arith
  import opened Sums
  import opened Money
  import opened Allocation
  import opened Pricing
  import opened CheapestUnits

  function EligibleSubtotals(lines: seq<PricingLine>, discount: Option<PricingDiscount>): (r: seq<int>)
    ensures |r| == |lines|
  {
    Masked(Subtotals(lines), Eligibility(lines, discount))
  }

  /** The discount is allocated by largest remainder over the eligible lines. */
  predicate Allocates(lines: seq<PricingLine>, discount: Option<PricingDiscount>) {
    && discount.Some?
    && EvaluateDiscount(lines, discount).rejection.None?
    && (discount.value.kind == Percentage || discount.value.kind == FixedAmount)
  }

  /**
   A percentage takes more than the eligible lines cost: both minimums are met, the rate is at least half a
   unit above 100 percent of what is eligible, and no ceiling keeps it down.
   */
  predicate Overshoots(lines: seq<PricingLine>, discount: Option<PricingDiscount>) {
    && discount.Some?
    && var d, eligible := discount.value, Sum(EligibleSubtotals(lines, discount));
       && d.kind == Percentage
       && MinimumsMet(lines, d)
       && eligible * (d.valueBps.GetOr(0) - 10000) >= 5000
       && (d.maxDiscountCents.Some? ==> d.maxDiscountCents.value > eligible)
  }

  predicate MinimumsMet(lines: seq<PricingLine>, discount: PricingDiscount) {
    && (discount.minimumSubtotalCents.Some? ==> Sum(Subtotals(lines)) >= discount.minimumSubtotalCents.value)
    && (discount.minimumQuantity.Some? ==> Sum(Quantities(lines)) >= discount.minimumQuantity.value)
  }

  /** The discounts the validation schema lets through: at most 100 percent, no negative amount. */
  predicate WellFormed(discount: Option<PricingDiscount>) {
    discount.Some? ==>
      && 0 <= discount.value.valueBps.GetOr(0) <= 10000
      && 0 <= discount.value.valueCents.GetOr(0)
  }

  lemma {:induction false} SubtotalsAreNatural(lines: seq<PricingLine>, mask: seq<bool>)
    requires |mask| == |lines|
    ensures forall i :: 0 <= i < |lines| ==> 0 <= Masked(Subtotals(lines), mask)[i] <= Subtotals(lines)[i]
  {
    forall i | 0 <= i < |lines| ensures Subtotals(lines)[i] >= 0 {
      MulMonotone(0, lines[i].unitPriceCents, lines[i].quantity);
    }
  }

  lemma {:induction false} EligibleIsNatural(lines: seq<PricingLine>, discount: Option<PricingDiscount>)
    ensures Sum(EligibleSubtotals(lines, discount)) >= 0
  {
    SubtotalsAreNatural(lines, Eligibility(lines, discount));
    SumMonotone(Zeros(|lines|), EligibleSubtotals(lines, discount));
    SumConstant(Zeros(|lines|), 0);
  }

  /**
   The condition on the rate, the ceiling and the cart says exactly when the amount taken exceeds what is eligible.
   */
  lemma {:induction false} OvershootsMeans(lines: seq<PricingLine>, discount: Option<PricingDiscount>)
    ensures Overshoots(lines, discount) <==>
      && Allocates(lines, discount)
      && var eligible := Sum(EligibleSubtotals(lines, discount)); DiscountAmount(discount.value, eligible) > eligible
  {
    hide IsLineEligible, AllocateDiscount, EligibleSubtotals, ApplyBps;
    EligibleIsNatural(lines, discount);
    EligibleSubtotalOf(lines, discount);
    if discount.Some? {
      RateExceeds(Sum(EligibleSubtotals(lines, discount)), discount.value.valueBps.GetOr(0));
    }
  }

  lemma {:induction false} EligibleSubtotalOf(lines: seq<PricingLine>, discount: Option<PricingDiscount>)
    ensures Sum(EligibleSubtotals(lines, discount)) == Sum(Masked(Subtotals(lines), Eligibility(lines, discount)))
  {
  }

  lemma RateExceeds(eligible: nat, bps: int)
    ensures ApplyBps(eligible, bps) > eligible <==> eligible * (bps - 10000) >= 5000
  {
    Distribute(bps, 10000, eligible);
    var t := ApplyBps(eligible, bps);
    RoundsToNearest(eligible * bps, 10000, t);
  }

  lemma WellFormedNeverOvershoots(lines: seq<PricingLine>, discount: Option<PricingDiscount>)
    requires WellFormed(discount)
    ensures !Overshoots(lines, discount)
    ensures Allocates(lines, discount) ==> DiscountAmount(discount.value, Sum(EligibleSubtotals(lines, discount))) >= 0
  {
    OvershootsMeans(lines, discount);
    if Allocates(lines, discount) {
      RateOfAmount(Sum(EligibleSubtotals(lines, discount)), discount.value.valueBps.GetOr(0));
    }
  }

  lemma RateOfAmount(amount: nat, bps: nat)
    requires bps <= 10000
    ensures 0 <= ApplyBps(amount, bps) <= amount
  {
    RateErrors(amount, bps);
    MulMonotone(bps, 10000, amount);
    MulMonotone(0, amount, bps);
  }

  /**
   The order-level amount: a percentage is the rate's nearest unit unless its ceiling is lower, a fixed
   amount is itself unless the eligible lines cost less.
   */
  lemma AmountOfDiscount(discount: PricingDiscount, eligible: nat)
    requires discount.kind == Percentage || discount.kind == FixedAmount
    ensures var amount := DiscountAmount(discount, eligible); var rate := eligible * discount.valueBps.GetOr(0);
      if discount.kind == Percentage then
        && (discount.maxDiscountCents.Some? ==> amount <= ClampNonNegative(discount.maxDiscountCents.value))
        && (-10000 <= 2 * rate - 20000 * amount <= 10000
            || (discount.maxDiscountCents.Some? && amount == ClampNonNegative(discount.maxDiscountCents.value)
                && 20000 * amount < 2 * rate + 10000))
      else
        && amount <= eligible && amount <= discount.valueCents.GetOr(0)
        && (amount == eligible || amount == discount.valueCents.GetOr(0))
  {
    NearestOfRate(eligible, discount.valueBps.GetOr(0));
  }

  lemma NearestOfRate(amount: int, bps: int)
    ensures -10000 <= 2 * (amount * bps) - 20000 * ApplyBps(amount, bps) <= 10000
  {
    RoundsToNearest(amount * bps, 10000, ApplyBps(amount, bps));
  }

  /** Gifts, excluded products and variants, and lines outside the scope never have anything taken off. */
  lemma {:induction false} OutsideGetsNothing(lines: seq<PricingLine>, discount: PricingDiscount, i: nat)
    requires i < |lines|
    requires var line := lines[i];
      || line.isGift
      || (discount.excludedProductIds.Some? && line.productId in discount.excludedProductIds.value)
      || (discount.excludedVariantIds.Some? && line.variantId in discount.excludedVariantIds.value)
      || (discount.appliesTo == Products && line.productId !in discount.targetProductIds)
      || (discount.appliesTo == Variants
        && (discount.targetVariantIds.None? || line.variantId !in discount.targetVariantIds.value))
      || (discount.appliesTo == Collections
        && forall id :: id in line.collectionIds ==> id !in discount.targetCollectionIds)
    ensures EvaluateDiscount(lines, Some(discount)).perLine[i] == 0
  {
    hide EvaluateDiscount;
    DiscountOfLine(lines, Some(discount), i);
  }

  /**
   Masking the allocation by eligibility changes nothing: ineligible lines (gifts, exclusions)
   already got zero, so no cent is dropped and the lines carry the whole amount.
   */
  lemma {:induction false} MaskDropsNothing(lines: seq<PricingLine>, discount: Option<PricingDiscount>)
    requires Allocates(lines, discount)
    ensures var weights := EligibleSubtotals(lines, discount);
      var amount := DiscountAmount(discount.value, Sum(weights));
      && Sum(weights) > 0
      && EvaluateDiscount(lines, discount).perLine == Allocated(amount, weights)
      && EvaluateDiscount(lines, discount).totalCents == amount
  {
    var weights := EligibleSubtotals(lines, discount);
    var amount := DiscountAmount(discount.value, Sum(weights));
    var parts := Allocated(amount, weights);
    forall i | 0 <= i < |lines| && !Eligibility(lines, discount)[i] ensures parts[i] == 0 {
      AllocatedZeroWeight(amount, weights, i);
    }
    assert Masked(parts, Eligibility(lines, discount)) == parts;
    AllocatedSum(amount, weights);
  }

  /** What one line has taken off it, for all four discount types. */
  lemma {:induction false} DiscountOfLine(lines: seq<PricingLine>, discount: Option<PricingDiscount>, i: nat)
    requires i < |lines|
    ensures var d := EvaluateDiscount(lines, discount).perLine[i];
      && (!IsLineEligible(lines[i], discount) ==> d == 0)
      && (!Overshoots(lines, discount) ==> d <= Subtotals(lines)[i])
      && (Overshoots(lines, discount) ==> d >= EligibleSubtotals(lines, discount)[i])
      && (WellFormed(discount) ==> d >= 0)
  {
    hide Overshoots;
    OvershootsMeans(lines, discount);
    var eligibility := Eligibility(lines, discount);
    SubtotalsAreNatural(lines, eligibility);
    if Allocates(lines, discount) {
      var weights := EligibleSubtotals(lines, discount);
      var amount := DiscountAmount(discount.value, Sum(weights));
      MaskDropsNothing(lines, discount);
      AllocatedAgainstWeights(amount, weights, i);
      if !IsLineEligible(lines[i], discount) {
        AllocatedZeroWeight(amount, weights, i);
      }
      if WellFormed(discount) {
        WellFormedNeverOvershoots(lines, discount);
      }
    } else if EvaluateDiscount(lines, discount).rejection.None? && discount.Some? && discount.value.kind == BuyXGetY {
      FreeOfLine(discount.value, lines, eligibility, i);
    }
  }

  lemma {:induction false} FreeOfLine(discount: PricingDiscount, lines: seq<PricingLine>, eligibility: seq<bool>,
                                      i: nat)
    requires |lines| == |eligibility| && i < |lines|
    ensures 0 <= FreeUnits(discount, lines, eligibility)[i] <= Masked(Subtotals(lines), eligibility)[i]
  {
    hide Units, FreeCount, FreeUnits, Sorting.Sorted;
    var free := FreeCount(|Units(lines, eligibility)|, discount.buyQuantity.GetOr(0), discount.getQuantity.GetOr(0));
    FreeUnitsArePriced(discount, lines, eligibility, free);
    var take := Sorting.Tally(|lines|, Sorting.Sorted(Units(lines, eligibility))[..free]);
    ChoiceOfLine(take, free, lines, eligibility, i);
  }

  lemma {:induction false} ChoiceOfLine(take: seq<int>, count: nat, lines: seq<PricingLine>, eligibility: seq<bool>,
                                        i: nat)
    requires |lines| == |eligibility| && i < |lines| && Choice(take, count, lines, eligibility)
    ensures 0 <= Prices(take, lines)[i] <= Masked(Subtotals(lines), eligibility)[i]
  {
    MulMonotone(0, take[i], lines[i].unitPriceCents);
    MulMonotone(take[i], Holdings(lines, eligibility)[i], lines[i].unitPriceCents);
  }

  // ---- the order and its lines -------------------------------------------

  /** What each line is taxed on. */
  function Bases(lines: seq<PricingLine>, discounts: seq<int>): (r: seq<int>)
    requires |lines| == |discounts|
    ensures |r| == |lines|
  {
    seq(|lines|, i requires 0 <= i < |lines| => ClampNonNegative(Subtotals(lines)[i] - discounts[i]))
  }

  lemma {:induction false} TotalsOfLines(lines: seq<PricingLine>, discounts: seq<int>, rates: seq<TaxRate>,
                                         inclusive: bool)
    requires |lines| == |discounts|
    ensures var priced := PricedLines(lines, discounts, rates, inclusive);
      Sum(LineTotals(priced)) == Sum(Bases(lines, discounts)) + if inclusive then 0 else Sum(LineTaxes(priced))
  {
    var priced := PricedLines(lines, discounts, rates, inclusive);
    SumLinear(LineTotals(priced), Bases(lines, discounts), if inclusive then 0 else 1, LineTaxes(priced));
  }

  lemma {:induction false} TotalsFromBases(input: PricingInput)
    ensures var result := Priced(input);
      var bases := Bases(input.lines, EvaluateDiscount(input.lines, input.discount).perLine);
      Sum(LineTotals(result.lines)) == Sum(bases) + if input.pricesIncludeTax then 0 else Sum(LineTaxes(result.lines))
  {
    var perLine := EvaluateDiscount(input.lines, input.discount).perLine;
    TotalsOfLines(input.lines, perLine, input.taxRates, input.pricesIncludeTax);
  }

  /** The clamps do not fire unless a percentage overshoots; then every eligible line is clamped to nothing. */
  lemma {:induction false} SumOfBases(lines: seq<PricingLine>, discount: Option<PricingDiscount>)
    ensures var bases := Bases(lines, EvaluateDiscount(lines, discount).perLine);
      && (!Overshoots(lines, discount)
        ==> Sum(bases) == Sum(Subtotals(lines)) - EvaluateDiscount(lines, discount).totalCents >= 0)
      && (Overshoots(lines, discount)
        ==> Sum(bases) == Sum(Subtotals(lines)) - Sum(EligibleSubtotals(lines, discount)) >= 0)
  {
    var perLine := EvaluateDiscount(lines, discount).perLine;
    var taken := if Overshoots(lines, discount) then EligibleSubtotals(lines, discount) else perLine;
    forall i | 0 <= i < |lines| ensures Bases(lines, perLine)[i] == Subtotals(lines)[i] - taken[i] {
      DiscountOfLine(lines, discount, i);
      SubtotalsAreNatural(lines, Eligibility(lines, discount));
    }
    SumOfDifferences(Bases(lines, perLine), Subtotals(lines), taken);
  }

  lemma {:induction false} SumOfDifferences(bases: seq<int>, subtotals: seq<int>, taken: seq<int>)
    requires |bases| == |subtotals| == |taken|
    requires forall i :: 0 <= i < |bases| ==> bases[i] == subtotals[i] - taken[i] && bases[i] >= 0
    ensures Sum(bases) == Sum(subtotals) - Sum(taken) >= 0
  {
    SumLinear(bases, subtotals, -1, taken);
    SumMonotone(Zeros(|bases|), bases);
    SumConstant(Zeros(|bases|), 0);
  }

  /** The order total is the line totals plus shipping, plus the shipping tax when prices exclude tax. */
  predicate Reconciles(input: PricingInput) {
    var result := Priced(input);
    result.totalCents == Sum(LineTotals(result.lines)) + result.shippingTotalCents
      + if input.pricesIncludeTax then 0 else Sum(ShippingTaxes(input, result.shippingTotalCents))
  }

  /**
   The order total is the sum of the line totals plus shipping (plus the tax on shipping when prices
   exclude tax) unless a percentage takes more than the eligible lines cost while other lines cost something.
   */
  lemma OrderReconciles(input: PricingInput)
    ensures Reconciles(input) <==> (
      || !Overshoots(input.lines, input.discount)
      || Sum(EligibleSubtotals(input.lines, input.discount)) == Sum(Subtotals(input.lines)))
  {
    hide Overshoots, EvaluateDiscount, PricedLines, Bases;
    OvershootsMeans(input.lines, input.discount);
    TotalsFromBases(input);
    SumOfBases(input.lines, input.discount);
    if Overshoots(input.lines, input.discount) {
      MaskDropsNothing(input.lines, input.discount);
    }
  }

  /** What the schema lets through: every line's discount lies within its subtotal and no clamp fires. */
  lemma {:induction false} WellFormedLine(input: PricingInput, i: nat)
    requires WellFormed(input.discount) && i < |input.lines|
    ensures var line := Priced(input).lines[i];
      && 0 <= line.discountCents <= line.subtotalCents
      && line.totalCents
        == line.subtotalCents - line.discountCents + if input.pricesIncludeTax then 0 else line.taxCents
  {
    WellFormedNeverOvershoots(input.lines, input.discount);
    DiscountOfLine(input.lines, input.discount, i);
  }

  /** Then the order's own clamp does not fire either, and the order reconciles with its lines. */
  lemma {:induction false} WellFormedOrder(input: PricingInput)
    requires WellFormed(input.discount)
    ensures Reconciles(input)
    ensures var result := Priced(input);
      && 0 <= result.discountTotalCents <= result.subtotalCents
      && result.discountTotalCents == Sum(LineDiscounts(result.lines))
  {
    var perLine := EvaluateDiscount(input.lines, input.discount).perLine;
    WellFormedNeverOvershoots(input.lines, input.discount);
    OrderReconciles(input);
    SumOfBases(input.lines, input.discount);
    forall i | 0 <= i < |perLine| ensures 0 <= perLine[i] {
      DiscountOfLine(input.lines, input.discount, i);
    }
    SumMonotone(Zeros(|perLine|), perLine);
    SumConstant(Zeros(|perLine|), 0);
    assert LineDiscounts(Priced(input).lines) == perLine;
  }

  function LineDiscounts(lines: seq<PricedLine>): (r: seq<int>)
    ensures |r| == |lines|
  {
    seq(|lines|, i requires 0 <= i < |lines| => lines[i].discountCents)
  }

  // ---- acceptance and tax ------------------------------------------------

  lemma {:induction false} PositiveSum(s: seq<int>)
    requires forall i :: 0 <= i < |s| ==> s[i] >= 0
    ensures Sum(s) > 0 <==> exists i :: 0 <= i < |s| && s[i] > 0
  {
    if i :| 0 <= i < |s| && s[i] > 0 {
      SumAtLeast(s, i);
    } else {
      SumMonotone(s, Zeros(|s|));
      SumConstant(Zeros(|s|), 0);
    }
  }

  /**
   A discount is accepted when both minimums are met and, unless it is free shipping, some eligible
   line costs something.
   */
  lemma {:induction false} AcceptedIff(lines: seq<PricingLine>, discount: PricingDiscount)
    ensures EvaluateDiscount(lines, Some(discount)).rejection.None? <==>
      && MinimumsMet(lines, discount)
      && (discount.kind == FreeShipping
          || exists i :: 0 <= i < |lines| && IsLineEligible(lines[i], Some(discount)) && Subtotals(lines)[i] > 0)
  {
    hide IsLineEligible, AllocateDiscount;
    var weights := EligibleSubtotals(lines, Some(discount));
    SubtotalsAreNatural(lines, Eligibility(lines, Some(discount)));
    PositiveSum(weights);
    forall i | 0 <= i < |lines|
      ensures weights[i] > 0 <==> IsLineEligible(lines[i], Some(discount)) && Subtotals(lines)[i] > 0
    {
    }
  }

  /** The tax on an amount at one rate: a nearest unit of the rate, or of the part of the amount that is tax. */
  ghost predicate TaxIs(tax: int, amount: int, bps: nat, inclusive: bool) {
    Nearest(amount * bps, if inclusive then 10000 + bps else 10000, tax)
  }

  lemma TaxOfIs(amount: int, bps: nat, inclusive: bool)
    ensures TaxIs(TaxOf(amount, bps, inclusive), amount, bps, inclusive)
  {
    Distribute(10000, bps, amount);
    assert amount * (10000 + bps) - amount * 10000 == amount * bps;
    RoundsToNearest(amount * bps, if inclusive then 10000 + bps else 10000, TaxOf(amount, bps, inclusive));
  }

  /**
   Tax is owed on what was paid: each tax line of a well-formed order is the tax on the line's subtotal less
   its discount, for exactly the rates that carry no tax code or the line's own, and they make up the line's tax.
   */
  lemma {:induction false} TaxOnDiscounted(input: PricingInput, i: nat)
    requires WellFormed(input.discount) && i < |input.lines|
    ensures LineTaxed(Priced(input).lines[i], input.lines[i], input.taxRates, input.pricesIncludeTax)
  {
    hide EvaluateDiscount, LineTaxed, PriceLine;
    var perLine := EvaluateDiscount(input.lines, input.discount).perLine;
    WellFormedNeverOvershoots(input.lines, input.discount);
    DiscountOfLine(input.lines, input.discount, i);
    LineTax(input.lines[i], perLine[i], input.taxRates, input.pricesIncludeTax);
  }

  predicate AppliesTo(rate: TaxRate, line: PricingLine) {
    line.isTaxable && (rate.taxCode.None? || rate.taxCode == line.taxCode)
  }

  function TaxLineAmounts(lines: seq<TaxLine>): (r: seq<int>)
    ensures |r| == |lines|
  {
    seq(|lines|, k requires 0 <= k < |lines| => lines[k].amountCents)
  }

  /** The rates that apply to the line, in the order of the table. */
  function OwedRates(line: PricingLine, rates: seq<TaxRate>): seq<TaxRate> {
    Filter(rates, (rate: TaxRate) => AppliesTo(rate, line))
  }

  /**
   One tax line for each applicable rate, in rate order, each the tax on subtotal less discount; together they
   are the line's tax.
   */
  ghost predicate LineTaxed(priced: PricedLine, line: PricingLine, rates: seq<TaxRate>, inclusive: bool) {
    var owed := OwedRates(line, rates);
    && |priced.taxLines| == |owed|
    && (forall k :: 0 <= k < |owed| ==>
          && priced.taxLines[k].title == owed[k].name
          && priced.taxLines[k].rateBps == owed[k].rateBps
          && TaxIs(priced.taxLines[k].amountCents, priced.subtotalCents - priced.discountCents, owed[k].rateBps,
                   inclusive))
    && priced.taxCents == Sum(TaxLineAmounts(priced.taxLines))
  }

  lemma {:induction false} OwedAreApplicable(line: PricingLine, rates: seq<TaxRate>)
    ensures OwedRates(line, rates) == ApplicableRates(line, rates)
  {
    var matching := (rate: TaxRate) => rate.taxCode.None? || rate.taxCode == line.taxCode;
    var owed := (rate: TaxRate) => AppliesTo(rate, line);
    if line.isTaxable {
      FilterSame(rates, owed, matching);
    } else {
      FilterNone(rates, owed);
    }
  }

  lemma {:induction false} LineTax(line: PricingLine, discount: int, rates: seq<TaxRate>, inclusive: bool)
    requires discount <= line.unitPriceCents * line.quantity
    ensures LineTaxed(PriceLine(line, discount, rates, inclusive), line, rates, inclusive)
  {
    hide TaxOf, TaxIs, ApplicableRates, OwedRates;
    OwedAreApplicable(line, rates);
    var priced := PriceLine(line, discount, rates, inclusive);
    var base := line.unitPriceCents * line.quantity - discount;
    var owed := OwedRates(line, rates);
    forall k | 0 <= k < |owed| ensures TaxIs(priced.taxLines[k].amountCents, base, owed[k].rateBps, inclusive) {
      TaxOfIs(base, owed[k].rateBps, inclusive);
    }
    assert TaxAmounts(base, owed, inclusive) == TaxLineAmounts(priced.taxLines);
  }

  // ---- where an order does not reconcile -----------------------------------

  function OneOf(id: string, price: nat): PricingLine {
    PricingLine(id, id, id, 1, price, true, None, false, 0, [], false)
  }

  /** 200 percent off the first of two lines, which cost 100 and 50. */
  const OVERSHOOTING_CART := PricingInput(
    [OneOf("a", 100), OneOf("b", 50)],
    Some(PricingDiscount("d", None, Percentage, Some(20000), None, None, Products, ["a"], [],
                         None, None, None, None, None, None, None)),
    None, [], true, false)

  /** The order comes to nothing although the second line still costs 50. */
  lemma {:induction false} OvershootingCart()
    ensures Overshoots(OVERSHOOTING_CART.lines, OVERSHOOTING_CART.discount) && !Reconciles(OVERSHOOTING_CART)
    ensures Priced(OVERSHOOTING_CART).totalCents == 0 && Sum(LineTotals(Priced(OVERSHOOTING_CART).lines)) == 50
  {
    var input := OVERSHOOTING_CART;
    TwoTerms(100, 50);
    TwoTerms(100, 0);
    OvershootingFigures();
    hide EvaluateDiscount, Reconciles, Overshoots, PricedLines, ShippingTotal;
    OrderReconciles(input);
    OvershootsMeans(input.lines, input.discount);
    MaskDropsNothing(input.lines, input.discount);
    RateExceeds(100, 20000);
    TotalsFromBases(input);
    SumOfBases(input.lines, input.discount);
    NoShipping(input);
  }

  lemma OvershootingFigures()
    ensures Subtotals(OVERSHOOTING_CART.lines) == [100, 50]
    ensures EligibleSubtotals(OVERSHOOTING_CART.lines, OVERSHOOTING_CART.discount) == [100, 0]
    ensures Overshoots(OVERSHOOTING_CART.lines, OVERSHOOTING_CART.discount)
    ensures DiscountAmount(OVERSHOOTING_CART.discount.value, 100) == 200
  {
    TwoTerms(100, 0);
    RoundsToNearest(100 * 20000, 10000, 200);
  }

  lemma NoShipping(input: PricingInput)
    requires input.shippingRate.None?
    ensures Priced(input).shippingTotalCents == 0
  {
    hide EvaluateDiscount, PricedLines;
  }

  lemma TwoTerms(a: int, b: int)
    ensures Sum([a, b]) == a + b
  {
    SumConstant([a], a);
    SumConstant([b], b);
    SumAppend([a], [b]);
    assert [a] + [b] == [a, b];
  }
}
