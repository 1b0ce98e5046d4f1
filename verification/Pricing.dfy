/**
 The pricing engine (src/lib/pricing.ts): cart lines, one discount, tax rates and a
 shipping rate become an exact integer breakdown. Prices, quantities, weights and
 tax rates are natural numbers, as the validation schemas demand; every figure of a
 discount is any integer.
 */
module Pricing {
  import opened Options
  import opened Arith
  import opened Sums
  import opened Sorting
  import opened Money
  import opened Allocation

  // ---- data --------------------------------------------------------------

  datatype PricingLine = PricingLine(
    id: string, variantId: string, productId: string,
    quantity: nat, unitPriceCents: nat,
    isTaxable: bool, taxCode: Option<string>,
    requiresShipping: bool, weightGrams: nat,
    collectionIds: seq<string>, isGift: bool)

  datatype DiscountType = Percentage | FixedAmount | FreeShipping | BuyXGetY

  datatype Scope = All | Products | Collections | Variants

  datatype PricingDiscount = PricingDiscount(
    id: string, code: Option<string>, kind: DiscountType,
    valueBps: Option<int>, valueCents: Option<int>, maxDiscountCents: Option<int>,
    appliesTo: Scope,
    targetProductIds: seq<string>, targetCollectionIds: seq<string>, targetVariantIds: Option<seq<string>>,
    excludedProductIds: Option<seq<string>>, excludedVariantIds: Option<seq<string>>,
    minimumSubtotalCents: Option<int>, minimumQuantity: Option<int>,
    buyQuantity: Option<int>, getQuantity: Option<int>)

  datatype Rejection = MinimumSubtotalNotMet | MinimumQuantityNotMet | NoEligibleItems

  datatype TaxRate = TaxRate(name: string, rateBps: nat, appliesToShipping: bool, taxCode: Option<string>)

  datatype ShippingRate = ShippingRate(id: string, name: string, priceCents: nat)

  datatype PricingInput = PricingInput(
    lines: seq<PricingLine>, discount: Option<PricingDiscount>, shippingRate: Option<ShippingRate>,
    taxRates: seq<TaxRate>, pricesIncludeTax: bool, taxesIncludedInShipping: bool)

  datatype TaxLine = TaxLine(title: string, rateBps: nat, amountCents: int)

  datatype PricedLine = PricedLine(
    id: string, variantId: string, productId: string, quantity: nat, unitPriceCents: nat,
    subtotalCents: int, discountCents: int, taxCents: int, taxLines: seq<TaxLine>, totalCents: int)

  datatype PricingResult = PricingResult(
    lines: seq<PricedLine>, subtotalCents: int, discountTotalCents: int, shippingTotalCents: int,
    taxTotalCents: int, totalCents: int, totalWeightGrams: int, rejection: Option<Rejection>)

  datatype Evaluation = Evaluation(perLine: seq<int>, totalCents: int, rejection: Option<Rejection>)

  // ---- figures of a cart -------------------------------------------------

  function Subtotals(lines: seq<PricingLine>): (r: seq<int>)
    ensures |r| == |lines|
  {
    seq(|lines|, i requires 0 <= i < |lines| => lines[i].unitPriceCents * lines[i].quantity)
  }

  function Quantities(lines: seq<PricingLine>): (r: seq<int>)
    ensures |r| == |lines|
  {
    seq(|lines|, i requires 0 <= i < |lines| => lines[i].quantity)
  }

  function Weights(lines: seq<PricingLine>): (r: seq<int>)
    ensures |r| == |lines|
  {
    seq(|lines|, i requires 0 <= i < |lines| => lines[i].weightGrams * lines[i].quantity)
  }

  function Masked(values: seq<int>, mask: seq<bool>): (r: seq<int>)
    requires |values| == |mask|
    ensures |r| == |values|
  {
    seq(|values|, i requires 0 <= i < |values| => if mask[i] then values[i] else 0)
  }

  function Zeros(n: nat): (r: seq<int>)
    ensures |r| == n
  {
    seq(n, _ => 0)
  }

  // ---- eligibility -------------------------------------------------------

  predicate Lists(ids: Option<seq<string>>, id: string) {
    id in ids.GetOr([])
  }

  predicate InScope(line: PricingLine, discount: PricingDiscount) {
    match discount.appliesTo
    case All => true
    case Products => line.productId in discount.targetProductIds
    case Collections => exists id :: id in line.collectionIds && id in discount.targetCollectionIds
    case Variants => Lists(discount.targetVariantIds, line.variantId)
  }

  predicate IsLineEligible(line: PricingLine, discount: Option<PricingDiscount>) {
    && discount.Some?
    && !line.isGift
    && !Lists(discount.value.excludedProductIds, line.productId)
    && !Lists(discount.value.excludedVariantIds, line.variantId)
    && InScope(line, discount.value)
  }

  function Eligibility(lines: seq<PricingLine>, discount: Option<PricingDiscount>): (r: seq<bool>)
    ensures |r| == |lines|
  {
    seq(|lines|, i requires 0 <= i < |lines| => IsLineEligible(lines[i], discount))
  }

  function RejectionReason(discount: PricingDiscount, subtotal: int, quantity: int,
                           eligibleSubtotal: int): Option<Rejection> {
    if discount.minimumSubtotalCents.Some? && subtotal < discount.minimumSubtotalCents.value then
      Some(MinimumSubtotalNotMet)
    else if discount.minimumQuantity.Some? && quantity < discount.minimumQuantity.value then
      Some(MinimumQuantityNotMet)
    else if discount.kind != FreeShipping && eligibleSubtotal <= 0 then
      Some(NoEligibleItems)
    else
      None
  }

  // ---- discount amounts --------------------------------------------------

  function Min(a: int, b: int): int {
    if a < b then a else b
  }

  function CapPercentage(amount: int, ceiling: Option<int>): int {
    match ceiling
    case None => amount
    case Some(c) => Min(amount, ClampNonNegative(c))
  }

  /** The order-level amount of a percentage or fixed discount. */
  function DiscountAmount(discount: PricingDiscount, eligibleSubtotal: int): int {
    if discount.kind == Percentage then
      CapPercentage(ApplyBps(eligibleSubtotal, discount.valueBps.GetOr(0)), discount.maxDiscountCents)
    else
      Min(discount.valueCents.GetOr(0), eligibleSubtotal)
  }

  function AllocateDiscount(discount: Option<PricingDiscount>, lines: seq<PricingLine>, subtotals: seq<int>,
                            eligibility: seq<bool>, eligibleSubtotal: int): (r: seq<int>)
    requires |lines| == |subtotals| == |eligibility|
    ensures |r| == |lines|
  {
    if discount.None? || discount.value.kind == FreeShipping then
      Zeros(|lines|)
    else if discount.value.kind == BuyXGetY then
      FreeUnits(discount.value, lines, eligibility)
    else if eligibleSubtotal <= 0 then
      Zeros(|lines|)
    else
      Masked(Allocated(DiscountAmount(discount.value, eligibleSubtotal), Masked(subtotals, eligibility)), eligibility)
  }

  function EvaluateDiscount(lines: seq<PricingLine>, discount: Option<PricingDiscount>): (e: Evaluation)
    ensures |e.perLine| == |lines|
  {
    var subtotals := Subtotals(lines);
    var eligibility := Eligibility(lines, discount);
    var eligibleSubtotal := Sum(Masked(subtotals, eligibility));
    var rejection :=
      if discount.None? then None
      else RejectionReason(discount.value, Sum(subtotals), Sum(Quantities(lines)), eligibleSubtotal);
    var accepted := if rejection.Some? then None else discount;
    var perLine := AllocateDiscount(accepted, lines, subtotals, eligibility, eligibleSubtotal);
    Evaluation(perLine, Sum(perLine), rejection)
  }

  // ---- buy X get Y -------------------------------------------------------

  function Copies(unit: Keyed, n: nat): (r: seq<Keyed>)
    ensures |r| == n
  {
    seq(n, _ => unit)
  }

  /** One record per eligible unit: its price, and the index of its line. */
  function Units(lines: seq<PricingLine>, eligibility: seq<bool>): seq<Keyed>
    requires |lines| == |eligibility|
  {
    if lines == [] then [] else
      var n := |lines| - 1;
      Units(lines[..n], eligibility[..n])
      + if eligibility[n] then Copies(Keyed(lines[n].unitPriceCents, n), lines[n].quantity) else []
  }

  /** How many of n units are free: get units for every whole group of buy + get. */
  function FreeCount(n: nat, buy: int, get: int): (r: nat)
    ensures r <= n
  {
    if buy <= 0 || get <= 0 then 0 else
      var groups := n / (buy + get);
      DivMod(n, buy + get);
      MulMonotone(get, buy + get, groups);
      groups * get
  }

  /** FreeCount is get units for each whole group of buy + get that n units can form. */
  lemma FreeCountMeans(n: nat, buy: int, get: int, groups: nat)
    requires buy > 0 && get > 0
    requires groups * (buy + get) <= n < groups * (buy + get) + (buy + get)
    ensures FreeCount(n, buy, get) == groups * get
  {
    DivModUnique(n, buy + get, groups, n - groups * (buy + get));
  }

  /** What the given units cost on one line. */
  function ChargeOf(units: seq<Keyed>, line: nat): int {
    if units == [] then 0 else
      ChargeOf(units[..|units| - 1], line) + if units[|units| - 1].tag == line then units[|units| - 1].key else 0
  }

  function FreeUnits(discount: PricingDiscount, lines: seq<PricingLine>, eligibility: seq<bool>): (r: seq<int>)
    requires |lines| == |eligibility|
    ensures |r| == |lines|
  {
    var units := Units(lines, eligibility);
    var free := FreeCount(|units|, discount.buyQuantity.GetOr(0), discount.getQuantity.GetOr(0));
    seq(|lines|, i requires 0 <= i < |lines| => ChargeOf(Sorted(units)[..free], i))
  }

  /** allocateBuyXGetY: expand to units, sort them, and write the cheapest ones onto their lines. */
  method AllocateBuyXGetY(discount: PricingDiscount, lines: seq<PricingLine>, eligibility: seq<bool>)
    returns (result: seq<int>)
    requires |lines| == |eligibility|
    ensures result == FreeUnits(discount, lines, eligibility)
  {
    var buy, get := discount.buyQuantity.GetOr(0), discount.getQuantity.GetOr(0);
    if buy <= 0 || get <= 0 {
      return Zeros(|lines|);
    }
    var units := ExpandUnits(lines, eligibility);
    var groups := |units| / (buy + get);
    if groups <= 0 {
      NonNegativeQuotient(|units|, buy + get);
      return Zeros(|lines|);
    }
    UnitsAreUnits(lines, eligibility);
    assert FreeCount(|units|, buy, get) == groups * get;
    result := ChargeUnits(Sorted(units), groups * get, |lines|);
  }

  method ExpandUnits(lines: seq<PricingLine>, eligibility: seq<bool>) returns (units: seq<Keyed>)
    requires |lines| == |eligibility|
    ensures units == Units(lines, eligibility)
  {
    units := [];
    for index := 0 to |lines|
      invariant units == Units(lines[..index], eligibility[..index])
    {
      assert lines[..index + 1][..index] == lines[..index];
      assert eligibility[..index + 1][..index] == eligibility[..index];
      if eligibility[index] {
        ghost var before := units;
        for i := 0 to lines[index].quantity
          invariant units == before + Copies(Keyed(lines[index].unitPriceCents, index), i)
        {
          units := units + [Keyed(lines[index].unitPriceCents, index)];
        }
      }
    }
    assert lines[..|lines|] == lines && eligibility[..|lines|] == eligibility;
  }

  method ChargeUnits(units: seq<Keyed>, freeUnitCount: nat, n: nat) returns (result: seq<int>)
    requires freeUnitCount <= |units|
    requires forall u :: u in units ==> u.tag < n
    ensures result == seq(n, i requires 0 <= i < n => ChargeOf(units[..freeUnitCount], i))
  {
    result := Zeros(n);
    for i := 0 to freeUnitCount
      invariant |result| == n
      invariant forall j :: 0 <= j < n ==> result[j] == ChargeOf(units[..i], j)
    {
      assert units[..i + 1][..i] == units[..i];
      assert units[i] in units;
      var index := units[i].tag;
      result := result[index := result[index] + units[i].key];
    }
  }

  lemma NonNegativeQuotient(a: nat, n: int)
    requires n > 0
    ensures a / n >= 0
  {
    if a / n <= -1 {
      MulMonotone(a / n, -1, n);
      DivMod(a, n);
    }
  }

  /** Every unit, sorted or not, belongs to an eligible line and carries that line's price. */
  lemma {:induction false} UnitsAreUnits(lines: seq<PricingLine>, eligibility: seq<bool>)
    requires |lines| == |eligibility|
    ensures forall u :: u in Units(lines, eligibility) || u in Sorted(Units(lines, eligibility)) ==>
      u.tag < |lines| && eligibility[u.tag] && u.key == lines[u.tag].unitPriceCents
  {
    var units := Units(lines, eligibility);
    if lines != [] {
      var n := |lines| - 1;
      UnitsAreUnits(lines[..n], eligibility[..n]);
    }
    SortedKeeps(units);
    forall u | u in Sorted(units) ensures u in units {
      assert u in multiset(Sorted(units));
    }
  }

  // ---- tax, shipping, totals ---------------------------------------------

  function TaxOf(amount: int, bps: nat, inclusive: bool): int {
    if inclusive then TaxFromInclusive(amount, bps) else ApplyBps(amount, bps)
  }

  function ApplicableRates(line: PricingLine, rates: seq<TaxRate>): seq<TaxRate> {
    if line.isTaxable then Filter(rates, (rate: TaxRate) => rate.taxCode.None? || rate.taxCode == line.taxCode) else []
  }

  function TaxLines(base: int, rates: seq<TaxRate>, inclusive: bool): (r: seq<TaxLine>)
    ensures |r| == |rates|
  {
    seq(|rates|, i requires 0 <= i < |rates| =>
      TaxLine(rates[i].name, rates[i].rateBps, TaxOf(base, rates[i].rateBps, inclusive)))
  }

  function TaxAmounts(base: int, rates: seq<TaxRate>, inclusive: bool): (r: seq<int>)
    ensures |r| == |rates|
  {
    seq(|rates|, i requires 0 <= i < |rates| => TaxOf(base, rates[i].rateBps, inclusive))
  }

  function PriceLine(line: PricingLine, discount: int, rates: seq<TaxRate>, inclusive: bool): PricedLine {
    var subtotal := line.unitPriceCents * line.quantity;
    var base := ClampNonNegative(subtotal - discount);
    var applicable := ApplicableRates(line, rates);
    var tax := Sum(TaxAmounts(base, applicable, inclusive));
    PricedLine(line.id, line.variantId, line.productId, line.quantity, line.unitPriceCents, subtotal, discount,
               tax, TaxLines(base, applicable, inclusive), if inclusive then base else base + tax)
  }

  function PricedLines(lines: seq<PricingLine>, discounts: seq<int>, rates: seq<TaxRate>,
                       inclusive: bool): (r: seq<PricedLine>)
    requires |lines| == |discounts|
    ensures |r| == |lines|
  {
    seq(|lines|, i requires 0 <= i < |lines| => PriceLine(lines[i], discounts[i], rates, inclusive))
  }

  function LineTaxes(lines: seq<PricedLine>): (r: seq<int>)
    ensures |r| == |lines|
  {
    seq(|lines|, i requires 0 <= i < |lines| => lines[i].taxCents)
  }

  function LineTotals(lines: seq<PricedLine>): (r: seq<int>)
    ensures |r| == |lines|
  {
    seq(|lines|, i requires 0 <= i < |lines| => lines[i].totalCents)
  }

  function ShippingTotal(input: PricingInput, rejection: Option<Rejection>): nat {
    var free := rejection.None? && input.discount.Some? && input.discount.value.kind == FreeShipping;
    if !(exists line :: line in input.lines && line.requiresShipping) || free || input.shippingRate.None? then 0
    else input.shippingRate.value.priceCents
  }

  function ShippingTaxes(input: PricingInput, shipping: nat): seq<int> {
    if shipping == 0 then []
    else
      var rates := Filter(input.taxRates, (rate: TaxRate) => rate.appliesToShipping);
      TaxAmounts(shipping, rates, input.taxesIncludedInShipping)
  }

  function Priced(input: PricingInput): PricingResult {
    var evaluated := EvaluateDiscount(input.lines, input.discount);
    var shipping := ShippingTotal(input, evaluated.rejection);
    var lines := PricedLines(input.lines, evaluated.perLine, input.taxRates, input.pricesIncludeTax);
    var tax := Sum(LineTaxes(lines)) + Sum(ShippingTaxes(input, shipping));
    var subtotal := Sum(Subtotals(input.lines));
    var goods := ClampNonNegative(subtotal - evaluated.totalCents);
    PricingResult(lines, subtotal, evaluated.totalCents, shipping, tax,
                  if input.pricesIncludeTax then goods + shipping else goods + shipping + tax,
                  Sum(Weights(input.lines)), evaluated.rejection)
  }

  /** priceCart: the lines are mapped, the tax total is accumulated over the shipping rates. */
  method PriceCart(input: PricingInput) returns (result: PricingResult)
    ensures result == Priced(input)
  {
    var evaluated := EvaluateDiscount(input.lines, input.discount);
    var shipping := ShippingTotal(input, evaluated.rejection);
    var pricedLines := PricedLines(input.lines, evaluated.perLine, input.taxRates, input.pricesIncludeTax);
    var taxTotal := Sum(LineTaxes(pricedLines));
    if shipping > 0 {
      var rates := Filter(input.taxRates, (rate: TaxRate) => rate.appliesToShipping);
      ghost var taxes := TaxAmounts(shipping, rates, input.taxesIncludedInShipping);
      for i := 0 to |rates|
        invariant taxTotal == Sum(LineTaxes(pricedLines)) + Sum(taxes[..i])
      {
        taxTotal := taxTotal + TaxOf(shipping, rates[i].rateBps, input.taxesIncludedInShipping);
        SumStep(taxes, i);
      }
      assert taxes[..|rates|] == taxes;
    }
    var subtotal := Sum(Subtotals(input.lines));
    var goods := ClampNonNegative(subtotal - evaluated.totalCents);
    result := PricingResult(pricedLines, subtotal, evaluated.totalCents, shipping, taxTotal,
                            if input.pricesIncludeTax then goods + shipping else goods + shipping + taxTotal,
                            Sum(Weights(input.lines)), evaluated.rejection);
  }
}
