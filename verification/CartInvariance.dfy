/**
 What a discount is worth depends only on which units are in the cart. Reordering the
 lines, or splitting a line in two, keeps the subtotal, the discount total, the rejection,
 the shipping and the weight, and the order total when prices include tax. Tax is rounded
 line by line and does not always survive.
 */
module CartInvariance {
  import opened Options
  import opened Arith
  import opened Sums
  import opened Sorting
  import opened Allocation
  import opened Money
  import opened Pricing
  import opened Reconciliation

  /** The figures that the engine adds up line by line; Tax is that of the line without a discount. */
  datatype Figure =
    | Subtotal | Quantity | Weight | EligibleSubtotal | UnitsAt(price: int)
    | Tax(rates: seq<TaxRate>, inclusive: bool)

  function FigureOf(line: PricingLine, figure: Figure, discount: Option<PricingDiscount>): int {
    match figure
    case Subtotal => line.unitPriceCents * line.quantity
    case Quantity => line.quantity
    case Weight => line.weightGrams * line.quantity
    case EligibleSubtotal => if IsLineEligible(line, discount) then line.unitPriceCents * line.quantity else 0
    case UnitsAt(price) => if IsLineEligible(line, discount) && line.unitPriceCents == price then line.quantity else 0
    case Tax(rates, inclusive) => PriceLine(line, 0, rates, inclusive).taxCents
  }

  function Total(lines: seq<PricingLine>, figure: Figure, discount: Option<PricingDiscount>): int {
    Sum(seq(|lines|, i requires 0 <= i < |lines| => FigureOf(lines[i], figure, discount)))
  }

  /** The same figures, the rounded tax aside. */
  ghost predicate SameFigures(lines: seq<PricingLine>, lines': seq<PricingLine>, discount: Option<PricingDiscount>) {
    && (forall figure: Figure :: !figure.Tax? ==> Total(lines, figure, discount) == Total(lines', figure, discount))
    && ((exists line :: line in lines && line.requiresShipping) <==>
        (exists line :: line in lines' && line.requiresShipping))
  }

  // ---- carts with the same figures are worth the same ---------------------

  lemma {:induction false} SumOfCharges(n: nat, units: seq<Keyed>)
    requires forall u :: u in units ==> u.tag < n
    ensures Sum(seq(n, i requires 0 <= i < n => ChargeOf(units, i))) == Sum(Keys(units))
  {
    var charges := seq(n, i requires 0 <= i < n => ChargeOf(units, i));
    if units == [] {
      SumConstant(charges, 0);
    } else {
      var k := |units| - 1;
      var before := seq(n, i requires 0 <= i < n => ChargeOf(units[..k], i));
      SumOfCharges(n, units[..k]);
      assert charges == before[units[k].tag := before[units[k].tag] + units[k].key];
      SumUpdate(before, units[k].tag, before[units[k].tag] + units[k].key);
      assert Keys(units)[..k] == Keys(units[..k]);
    }
  }

  lemma {:induction false} FreeUnitsTotal(discount: PricingDiscount, lines: seq<PricingLine>, eligibility: seq<bool>,
                                          free: nat)
    requires |lines| == |eligibility|
    requires free
      == FreeCount(|Units(lines, eligibility)|, discount.buyQuantity.GetOr(0), discount.getQuantity.GetOr(0))
    ensures Sum(FreeUnits(discount, lines, eligibility)) == Sum(Keys(Sorted(Units(lines, eligibility)))[..free])
  {
    var sorted := Sorted(Units(lines, eligibility));
    UnitsAreUnits(lines, eligibility);
    forall u | u in sorted[..free] ensures u in sorted {}
    SumOfCharges(|lines|, sorted[..free]);
    assert FreeUnits(discount, lines, eligibility)
        == seq(|lines|, i requires 0 <= i < |lines| => ChargeOf(sorted[..free], i));
    assert Keys(sorted)[..free] == Keys(sorted[..free]);
  }

  /** How many records carry the key. */
  function Occurs(s: seq<Keyed>, key: int): nat {
    if s == [] then 0 else Occurs(s[..|s| - 1], key) + if s[|s| - 1].key == key then 1 else 0
  }

  lemma {:induction false} OccursAppend(a: seq<Keyed>, b: seq<Keyed>, key: int)
    ensures Occurs(a + b, key) == Occurs(a, key) + Occurs(b, key)
  {
    if b == [] {
      assert a + b == a;
    } else {
      assert (a + b)[..|a + b| - 1] == a + b[..|b| - 1];
      OccursAppend(a, b[..|b| - 1], key);
    }
  }

  lemma {:induction false} OccursInsert(x: Keyed, s: seq<Keyed>, key: int)
    ensures Occurs(Insert(x, s), key) == Occurs(s, key) + if x.key == key then 1 else 0
  {
    if s == [] || x.key < s[0].key {
      OccursAppend([x], s, key);
    } else {
      OccursInsert(x, s[1..], key);
      OccursAppend([s[0]], Insert(x, s[1..]), key);
      OccursAppend([s[0]], s[1..], key);
      assert s == [s[0]] + s[1..];
    }
  }

  lemma {:induction false} OccursSorted(s: seq<Keyed>, key: int)
    ensures Occurs(Sorted(s), key) == Occurs(s, key)
  {
    if s != [] {
      OccursSorted(s[..|s| - 1], key);
      OccursInsert(s[|s| - 1], Sorted(s[..|s| - 1]), key);
    }
  }

  lemma {:induction false} OccursSomewhere(s: seq<Keyed>, key: int) returns (i: nat)
    requires Occurs(s, key) > 0
    ensures i < |s| && s[i].key == key
  {
    if s[|s| - 1].key == key {
      i := |s| - 1;
    } else {
      i := OccursSomewhere(s[..|s| - 1], key);
    }
  }

  lemma {:induction false} OccursInCopies(unit: Keyed, n: nat, key: int)
    ensures Occurs(Copies(unit, n), key) == if unit.key == key then n else 0
  {
    if n > 0 {
      assert Copies(unit, n)[..n - 1] == Copies(unit, n - 1);
      OccursInCopies(unit, n - 1, key);
    }
  }

  lemma {:induction false} UnitsAtPrice(lines: seq<PricingLine>, discount: Option<PricingDiscount>, price: int)
    ensures Occurs(Units(lines, Eligibility(lines, discount)), price) == Total(lines, UnitsAt(price), discount)
  {
    if lines != [] {
      var n := |lines| - 1;
      var e := Eligibility(lines, discount);
      UnitsAtPrice(lines[..n], discount, price);
      assert e[..n] == Eligibility(lines[..n], discount);
      var last := if e[n] then Copies(Keyed(lines[n].unitPriceCents, n), lines[n].quantity) else [];
      OccursAppend(Units(lines[..n], e[..n]), last, price);
      OccursInCopies(Keyed(lines[n].unitPriceCents, n), lines[n].quantity, price);
      assert lines == lines[..n] + [lines[n]];
      TotalAppend(lines[..n], [lines[n]], UnitsAt(price), discount);
      TotalOfOne(lines[n], UnitsAt(price), discount);
    }
  }

  /** Ascending records are the same prices as soon as every price occurs equally often. */
  lemma {:induction false} AscendingUnique(a: seq<Keyed>, b: seq<Keyed>)
    requires Ascending(a) && Ascending(b)
    requires forall key :: Occurs(a, key) == Occurs(b, key)
    ensures Keys(a) == Keys(b)
  {
    assert a != [] ==> Occurs(a, a[|a| - 1].key) > 0;
    assert b != [] ==> Occurs(b, b[|b| - 1].key) > 0;
    if a != [] && b != [] {
      var m, n := |a| - 1, |b| - 1;
      var i := OccursSomewhere(b, a[m].key);
      var j := OccursSomewhere(a, b[n].key);
      assert a[m].key == b[n].key;
      forall key ensures Occurs(a[..m], key) == Occurs(b[..n], key) {
        assert Occurs(a, key) == Occurs(b, key);
      }
      AscendingUnique(a[..m], b[..n]);
      assert Keys(a) == Keys(a[..m]) + [a[m].key] && Keys(b) == Keys(b[..n]) + [b[n].key];
    }
  }

  /** The sorted prices of the eligible units are determined by how many units there are at each price. */
  lemma {:induction false} SameSortedPrices(lines: seq<PricingLine>, lines': seq<PricingLine>,
                                            discount: Option<PricingDiscount>)
    requires SameFigures(lines, lines', discount)
    ensures Keys(Sorted(Units(lines, Eligibility(lines, discount))))
      == Keys(Sorted(Units(lines', Eligibility(lines', discount))))
  {
    var u, u' := Units(lines, Eligibility(lines, discount)), Units(lines', Eligibility(lines', discount));
    forall price ensures Occurs(Sorted(u), price) == Occurs(Sorted(u'), price) {
      UnitsAtPrice(lines, discount, price);
      UnitsAtPrice(lines', discount, price);
      OccursSorted(u, price);
      OccursSorted(u', price);
    }
    SortedAscending(u);
    SortedAscending(u');
    AscendingUnique(Sorted(u), Sorted(u'));
  }

  lemma {:induction false} FiguresOfCart(lines: seq<PricingLine>, discount: Option<PricingDiscount>)
    ensures Total(lines, Subtotal, discount) == Sum(Subtotals(lines))
    ensures Total(lines, Quantity, discount) == Sum(Quantities(lines))
    ensures Total(lines, Weight, discount) == Sum(Pricing.Weights(lines))
    ensures Total(lines, EligibleSubtotal, discount) == Sum(EligibleSubtotals(lines, discount))
  {
    var n := |lines|;
    assert seq(n, i requires 0 <= i < n => FigureOf(lines[i], Subtotal, discount)) == Subtotals(lines);
    assert seq(n, i requires 0 <= i < n => FigureOf(lines[i], Quantity, discount)) == Quantities(lines);
    assert seq(n, i requires 0 <= i < n => FigureOf(lines[i], Weight, discount)) == Pricing.Weights(lines);
    assert seq(n, i requires 0 <= i < n => FigureOf(lines[i], EligibleSubtotal, discount))
      == EligibleSubtotals(lines, discount);
  }

  /** Carts with the same figures get the same answer from the discount, for every discount. */
  lemma {:induction false} SameEvaluation(lines: seq<PricingLine>, lines': seq<PricingLine>,
                                          discount: Option<PricingDiscount>)
    requires SameFigures(lines, lines', discount)
    ensures EvaluateDiscount(lines, discount).rejection == EvaluateDiscount(lines', discount).rejection
    ensures EvaluateDiscount(lines, discount).totalCents == EvaluateDiscount(lines', discount).totalCents
  {
    hide Units, FreeCount, Allocated, IsLineEligible, Sorted;
    FiguresOfCart(lines, discount);
    FiguresOfCart(lines', discount);
    if Allocates(lines, discount) {
      MaskDropsNothing(lines, discount);
      MaskDropsNothing(lines', discount);
    } else if EvaluateDiscount(lines, discount).rejection.None? && discount.Some? && discount.value.kind == BuyXGetY {
      SameSortedPrices(lines, lines', discount);
      var e, e' := Eligibility(lines, discount), Eligibility(lines', discount);
      assert |Units(lines, e)| == |Keys(Sorted(Units(lines, e)))| == |Units(lines', e')|;
      var buy, get := discount.value.buyQuantity.GetOr(0), discount.value.getQuantity.GetOr(0);
      var free := FreeCount(|Units(lines, e)|, buy, get);
      FreeUnitsTotal(discount.value, lines, e, free);
      FreeUnitsTotal(discount.value, lines', e', free);
    } else {
      SumConstant(Zeros(|lines|), 0);
      SumConstant(Zeros(|lines'|), 0);
    }
  }

  /** The order-level part of a priced cart that does not depend on per-line tax rounding. */
  ghost predicate SameOrder(input: PricingInput, lines': seq<PricingLine>) {
    var result, result' := Priced(input), Priced(input.(lines := lines'));
    && result.subtotalCents == result'.subtotalCents
    && result.discountTotalCents == result'.discountTotalCents
    && result.rejection == result'.rejection
    && result.shippingTotalCents == result'.shippingTotalCents
    && result.totalWeightGrams == result'.totalWeightGrams
    && (input.pricesIncludeTax ==> result.totalCents == result'.totalCents)
  }

  lemma {:induction false} SameFiguresSameOrder(input: PricingInput, lines': seq<PricingLine>)
    requires SameFigures(input.lines, lines', input.discount)
    ensures SameOrder(input, lines')
  {
    hide EvaluateDiscount, PricedLines;
    FiguresOfCart(input.lines, input.discount);
    FiguresOfCart(lines', input.discount);
    SameEvaluation(input.lines, lines', input.discount);
  }

  // ---- reordering and splitting keep the figures -------------------------

  lemma {:induction false} TotalAppend(a: seq<PricingLine>, b: seq<PricingLine>, figure: Figure,
                                       discount: Option<PricingDiscount>)
    ensures Total(a + b, figure, discount) == Total(a, figure, discount) + Total(b, figure, discount)
  {
    var x := seq(|a|, i requires 0 <= i < |a| => FigureOf(a[i], figure, discount));
    var y := seq(|b|, i requires 0 <= i < |b| => FigureOf(b[i], figure, discount));
    var c := a + b;
    assert seq(|c|, i requires 0 <= i < |c| => FigureOf(c[i], figure, discount)) == x + y;
    SumAppend(x, y);
  }

  lemma {:induction false} TotalOfOne(line: PricingLine, figure: Figure, discount: Option<PricingDiscount>)
    ensures Total([line], figure, discount) == FigureOf(line, figure, discount)
  {
    assert seq(1, i requires 0 <= i < 1 => FigureOf([line][i], figure, discount)) == [FigureOf(line, figure, discount)];
    SumConstant([FigureOf(line, figure, discount)], FigureOf(line, figure, discount));
  }

  lemma {:induction false} TotalOfPermutation(lines: seq<PricingLine>, lines': seq<PricingLine>, figure: Figure,
                                              discount: Option<PricingDiscount>)
    requires multiset(lines) == multiset(lines')
    ensures Total(lines, figure, discount) == Total(lines', figure, discount)
  {
    if lines == [] {
      EmptyPermutation(lines');
    } else {
      var n := |lines| - 1;
      var j := LastInPermutation(lines, lines');
      TotalOfPermutation(lines[..n], Without(lines', j), figure, discount);
      TotalWithout(lines, n, figure, discount);
      TotalWithout(lines', j, figure, discount);
      assert Without(lines, n) == lines[..n];
    }
  }

  lemma {:induction false} TotalWithout(lines: seq<PricingLine>, j: nat, figure: Figure,
                                        discount: Option<PricingDiscount>)
    requires j < |lines|
    ensures Total(lines, figure, discount)
      == Total(Without(lines, j), figure, discount) + FigureOf(lines[j], figure, discount)
  {
    assert lines == lines[..j] + ([lines[j]] + lines[j + 1..]);
    TotalAppend(lines[..j], [lines[j]] + lines[j + 1..], figure, discount);
    TotalAppend([lines[j]], lines[j + 1..], figure, discount);
    TotalAppend(lines[..j], lines[j + 1..], figure, discount);
    TotalOfOne(lines[j], figure, discount);
  }

  /** Reordering the lines keeps every order-level figure that tax does not enter. */
  lemma {:induction false} ReorderedCart(input: PricingInput, lines': seq<PricingLine>)
    requires multiset(input.lines) == multiset(lines')
    ensures SameOrder(input, lines')
  {
    forall figure ensures Total(input.lines, figure, input.discount) == Total(lines', figure, input.discount) {
      TotalOfPermutation(input.lines, lines', figure, input.discount);
    }
    forall line ensures line in input.lines <==> line in lines' {
      assert line in multiset(input.lines) <==> line in multiset(lines');
    }
    SameFiguresSameOrder(input, lines');
  }

  /** Two lines with the attributes of one, sharing its quantity. */
  predicate Halves(line: PricingLine, first: PricingLine, second: PricingLine) {
    && first == line.(id := first.id, quantity := first.quantity)
    && second == line.(id := second.id, quantity := second.quantity)
    && first.quantity + second.quantity == line.quantity
  }

  /** Splitting a line in two keeps every order-level figure that tax does not enter. */
  lemma {:induction false} SplitLine(input: PricingInput, before: seq<PricingLine>, line: PricingLine,
                                     after: seq<PricingLine>, first: PricingLine, second: PricingLine)
    requires input.lines == before + ([line] + after) && Halves(line, first, second)
    ensures SameOrder(input, before + ([first, second] + after))
  {
    var lines' := before + ([first, second] + after);
    forall figure: Figure | !figure.Tax?
      ensures Total(input.lines, figure, input.discount) == Total(lines', figure, input.discount)
    {
      TotalAppend(before, [line] + after, figure, input.discount);
      TotalAppend([line], after, figure, input.discount);
      TotalAppend(before, [first, second] + after, figure, input.discount);
      TotalAppend([first, second], after, figure, input.discount);
      assert [first, second] == [first] + [second];
      TotalAppend([first], [second], figure, input.discount);
      Distribute(first.quantity, second.quantity, line.unitPriceCents);
      Distribute(first.quantity, second.quantity, line.weightGrams);
      TotalOfOne(line, figure, input.discount);
      TotalOfOne(first, figure, input.discount);
      TotalOfOne(second, figure, input.discount);
      assert FigureOf(line, figure, input.discount)
          == FigureOf(first, figure, input.discount) + FigureOf(second, figure, input.discount);
    }
    assert line in input.lines && first in lines';
    forall l | l in input.lines && l.requiresShipping ensures exists l' :: l' in lines' && l'.requiresShipping {
      assert l in lines' || first.requiresShipping;
    }
    forall l | l in lines' && l.requiresShipping ensures exists l' :: l' in input.lines && l'.requiresShipping {
      assert l in input.lines || line.requiresShipping;
    }
    SameFiguresSameOrder(input, lines');
  }

  // ---- tax ---------------------------------------------------------------

  /** No line pays less for the discount: there is none, it is rejected, or it is only for the shipping. */
  predicate LeavesLines(lines: seq<PricingLine>, discount: Option<PricingDiscount>) {
    discount.None? || EvaluateDiscount(lines, discount).rejection.Some? || discount.value.kind == FreeShipping
  }

  lemma {:induction false} TaxOfLines(input: PricingInput)
    requires LeavesLines(input.lines, input.discount)
    ensures Sum(LineTaxes(Priced(input).lines))
      == Total(input.lines, Tax(input.taxRates, input.pricesIncludeTax), input.discount)
  {
    NothingOffLines(input.lines, input.discount);
    hide EvaluateDiscount, PriceLine, ShippingTotal, ShippingTaxes, Subtotals, Pricing.Weights, Sum;
    var lines, tax := input.lines, Tax(input.taxRates, input.pricesIncludeTax);
    var taxes := seq(|lines|, i requires 0 <= i < |lines| => FigureOf(lines[i], tax, input.discount));
    assert LineTaxes(PricedLines(lines, Zeros(|lines|), input.taxRates, input.pricesIncludeTax)) == taxes;
  }

  lemma {:induction false} NothingOffLines(lines: seq<PricingLine>, discount: Option<PricingDiscount>)
    requires LeavesLines(lines, discount)
    ensures EvaluateDiscount(lines, discount).perLine == Zeros(|lines|)
  {
    hide RejectionReason, IsLineEligible, Subtotals;
  }

  /** As long as no line is discounted, reordering keeps the tax and the order total as well. */
  lemma {:induction false} ReorderedTax(input: PricingInput, lines': seq<PricingLine>)
    requires multiset(input.lines) == multiset(lines') && LeavesLines(input.lines, input.discount)
    ensures var result, result' := Priced(input), Priced(input.(lines := lines'));
      result.taxTotalCents == result'.taxTotalCents && result.totalCents == result'.totalCents
  {
    hide EvaluateDiscount, PricedLines, ShippingTotal, Total;
    ReorderedCart(input, lines');
    TaxOfLines(input);
    TaxOfLines(input.(lines := lines'));
    TotalOfPermutation(input.lines, lines', Tax(input.taxRates, input.pricesIncludeTax), input.discount);
  }

  function Denominator(bps: nat, inclusive: bool): (den: int)
    ensures den > 0
  {
    if inclusive then 10000 + bps else 10000
  }

  /** What one rate charges more on two amounts than on their sum: at most one unit, up or down. */
  function TaxCarry(a: nat, b: nat, bps: nat, inclusive: bool): (carry: int)
    ensures -1 <= carry <= 1
  {
    var den := Denominator(bps, inclusive);
    SplitCarry(a * bps % den, b * bps % den, den)
  }

  lemma TaxApart(a: nat, b: nat, bps: nat, inclusive: bool)
    ensures TaxOf(a, bps, inclusive) + TaxOf(b, bps, inclusive)
      == TaxOf(a + b, bps, inclusive) + TaxCarry(a, b, bps, inclusive)
  {
    Distribute(a, b, bps);
    Distribute(10000 + bps, 10000, a);
    Distribute(10000 + bps, 10000, b);
    Distribute(10000 + bps, 10000, a + b);
    MulMonotone(0, a, bps);
    MulMonotone(0, b, bps);
    RoundedApart(a * bps, b * bps, Denominator(bps, inclusive));
  }

  /** The carry of every rate, when a and b are taxed apart. */
  function TaxCarries(a: nat, b: nat, rates: seq<TaxRate>, inclusive: bool): (r: seq<int>)
    ensures |r| == |rates| && forall i :: 0 <= i < |r| ==> -1 <= r[i] <= 1
  {
    seq(|rates|, i requires 0 <= i < |rates| => TaxCarry(a, b, rates[i].rateBps, inclusive))
  }

  lemma {:induction false} TaxesApart(a: nat, b: nat, rates: seq<TaxRate>, inclusive: bool)
    ensures Sum(TaxAmounts(a, rates, inclusive)) + Sum(TaxAmounts(b, rates, inclusive))
      == Sum(TaxAmounts(a + b, rates, inclusive)) + Sum(TaxCarries(a, b, rates, inclusive))
  {
    hide TaxOf, TaxCarry;
    if rates != [] {
      var n := |rates| - 1;
      TaxesApart(a, b, rates[..n], inclusive);
      TaxApart(a, b, rates[n].rateBps, inclusive);
      assert TaxAmounts(a, rates, inclusive)[..n] == TaxAmounts(a, rates[..n], inclusive);
      assert TaxAmounts(b, rates, inclusive)[..n] == TaxAmounts(b, rates[..n], inclusive);
      assert TaxAmounts(a + b, rates, inclusive)[..n] == TaxAmounts(a + b, rates[..n], inclusive);
      assert TaxCarries(a, b, rates, inclusive)[..n] == TaxCarries(a, b, rates[..n], inclusive);
    }
  }

  /** What splitting a line into the two halves adds to its tax, at each rate that applies to it. */
  function SplitCarries(input: PricingInput, first: PricingLine, second: PricingLine): seq<int> {
    TaxCarries(first.unitPriceCents * first.quantity, second.unitPriceCents * second.quantity,
               ApplicableRates(first, input.taxRates), input.pricesIncludeTax)
  }

  lemma {:induction false} SplitFigure(input: PricingInput, line: PricingLine, first: PricingLine, second: PricingLine)
    requires Halves(line, first, second)
    ensures var tax := Tax(input.taxRates, input.pricesIncludeTax);
      FigureOf(first, tax, input.discount) + FigureOf(second, tax, input.discount)
        == FigureOf(line, tax, input.discount) + Sum(SplitCarries(input, first, second))
  {
    hide Sum, TaxAmounts, TaxCarries;
    Distribute(first.quantity, second.quantity, line.unitPriceCents);
    MulMonotone(0, first.quantity, line.unitPriceCents);
    MulMonotone(0, second.quantity, line.unitPriceCents);
    TaxesApart(line.unitPriceCents * first.quantity, line.unitPriceCents * second.quantity,
               ApplicableRates(line, input.taxRates), input.pricesIncludeTax);
  }

  /**
   As long as no line is discounted, splitting a line moves the tax by exactly the carries of its rates: not
   at all if and only if they add up to zero, and at most one unit for every rate that applies to the line.
   */
  lemma {:induction false} SplitTax(input: PricingInput, before: seq<PricingLine>, line: PricingLine,
                                    after: seq<PricingLine>, first: PricingLine, second: PricingLine)
    requires input.lines == before + ([line] + after) && Halves(line, first, second)
    requires LeavesLines(input.lines, input.discount)
    ensures var result, result' := Priced(input), Priced(input.(lines := before + ([first, second] + after)));
      var moved := Sum(SplitCarries(input, first, second));
      && result'.taxTotalCents == result.taxTotalCents + moved
      && result'.totalCents == result.totalCents + (if input.pricesIncludeTax then 0 else moved)
      && -|ApplicableRates(line, input.taxRates)| <= moved <= |ApplicableRates(line, input.taxRates)|
  {
    hide EvaluateDiscount, PricedLines, ShippingTotal, Total, FigureOf;
    var lines', tax := before + ([first, second] + after), Tax(input.taxRates, input.pricesIncludeTax);
    SplitLine(input, before, line, after, first, second);
    TaxOfLines(input);
    TaxOfLines(input.(lines := lines'));
    SplitFigure(input, line, first, second);
    SumBounds(SplitCarries(input, first, second), -1, 1);
    TotalAppend(before, [line] + after, tax, input.discount);
    TotalAppend([line], after, tax, input.discount);
    TotalAppend(before, [first, second] + after, tax, input.discount);
    TotalAppend([first, second], after, tax, input.discount);
    assert [first, second] == [first] + [second];
    TotalAppend([first], [second], tax, input.discount);
    TotalOfOne(line, tax, input.discount);
    TotalOfOne(first, tax, input.discount);
    TotalOfOne(second, tax, input.discount);
  }

  function TaxedLine(id: string, price: nat, quantity: nat, taxable: bool): PricingLine {
    PricingLine(id, id, id, quantity, price, taxable, None, false, 0, [], false)
  }

  function TaxedCart(lines: seq<PricingLine>, discount: Option<PricingDiscount>): PricingInput {
    PricingInput(lines, discount, None, [TaxRate("tax", 1000, false, None)], false, false)
  }

  /**
   Two units at 5 with ten percent tax on top cost 11 on one line, but 12 on two: half a unit of tax is
   rounded up twice.
   */
  lemma {:induction false} SplitMovesTax()
    ensures Priced(TaxedCart([TaxedLine("a", 5, 2, true)], None)).totalCents == 11
    ensures Priced(TaxedCart([TaxedLine("a", 5, 1, true), TaxedLine("b", 5, 1, true)], None)).totalCents == 12
  {
    hide Priced, PriceLine, Total;
    var whole, a, b := TaxedLine("a", 5, 2, true), TaxedLine("a", 5, 1, true), TaxedLine("b", 5, 1, true);
    var tax := Tax([TaxRate("tax", 1000, false, None)], false);
    OneUnitOfTax(whole);
    OneUnitOfTax(a);
    OneUnitOfTax(b);
    TotalAppend([a], [b], tax, None);
    assert [a] + [b] == [a, b];
    SumConstant(Subtotals([whole]), 10);
    SumConstant(Subtotals([a, b]), 5);
    NothingOff(TaxedCart([whole], None));
    NothingOff(TaxedCart([a, b], None));
  }

  lemma {:induction false} OneUnitOfTax(line: PricingLine)
    requires line.isTaxable && line.taxCode.None? && 5 <= line.unitPriceCents * line.quantity < 15
    ensures Total([line], Tax([TaxRate("tax", 1000, false, None)], false), None) == 1
  {
    hide PriceLine, Total;
    TenPercent(line, 0, 1);
    TotalOfOne(line, Tax([TaxRate("tax", 1000, false, None)], false), None);
  }

  lemma {:induction false} NothingOff(input: PricingInput)
    requires input.discount.None? && input.shippingRate.None? && !input.pricesIncludeTax
    requires Sum(Subtotals(input.lines)) >= 0
    ensures Priced(input).totalCents
      == Sum(Subtotals(input.lines)) + Total(input.lines, Tax(input.taxRates, false), None)
  {
    hide PricedLines, Total;
    TaxOfLines(input);
    SumConstant(Zeros(|input.lines|), 0);
  }

  lemma {:induction false} TenPercent(line: PricingLine, off: int, tax: int)
    requires line.isTaxable && line.taxCode.None?
    requires var base := line.unitPriceCents * line.quantity - off; base >= 0 && -10 <= 2 * base - 20 * tax < 10
    ensures PriceLine(line, off, [TaxRate("tax", 1000, false, None)], false).taxCents == tax
  {
    var rate := TaxRate("tax", 1000, false, None);
    var base := line.unitPriceCents * line.quantity - off;
    FilterAll([rate], (rate: TaxRate) => rate.taxCode.None? || rate.taxCode == line.taxCode);
    RoundsToNearest(base * 1000, 10000, tax);
    SumConstant(TaxAmounts(base, [rate], false), tax);
  }

  /** One unit off an order, whatever the line. */
  const ONE_OFF :=
    PricingDiscount("d", None, FixedAmount, None, Some(1), None, All, [], [], None, None, None, None, None, None, None)

  /**
   Once lines are discounted the order of the lines can move the tax: of two equal claims the first gets the
   unit off, and the taxed line rounds to no tax with it and to one unit without.
   */
  lemma {:induction false} ReorderingMovesTax()
    ensures var a, b := TaxedLine("a", 5, 1, true), TaxedLine("b", 5, 1, false);
      && Priced(TaxedCart([a, b], Some(ONE_OFF))).taxTotalCents == 0
      && Priced(TaxedCart([b, a], Some(ONE_OFF))).taxTotalCents == 1
  {
    hide EvaluateDiscount, PriceLine;
    var a, b := TaxedLine("a", 5, 1, true), TaxedLine("b", 5, 1, false);
    TenPercent(a, 1, 0);
    TenPercent(a, 0, 1);
    Untaxed(b, 0);
    Untaxed(b, 1);
    TaxOfTwo(a, b);
    TaxOfTwo(b, a);
  }

  lemma {:induction false} Untaxed(line: PricingLine, off: int)
    requires !line.isTaxable
    ensures PriceLine(line, off, [TaxRate("tax", 1000, false, None)], false).taxCents == 0
  {
  }

  /** The first of two lines at 5 carries the unit off. */
  lemma {:induction false} TaxOfTwo(a: PricingLine, b: PricingLine)
    requires a == TaxedLine(a.id, 5, 1, a.isTaxable) && b == TaxedLine(b.id, 5, 1, b.isTaxable)
    ensures var input := TaxedCart([a, b], Some(ONE_OFF));
      Priced(input).taxTotalCents
        == PriceLine(a, 1, input.taxRates, false).taxCents + PriceLine(b, 0, input.taxRates, false).taxCents
  {
    hide PriceLine;
    var input := TaxedCart([a, b], Some(ONE_OFF));
    OneOffFirst(a, b);
    hide EvaluateDiscount;
    var lines := PricedLines([a, b], [1, 0], input.taxRates, false);
    assert LineTaxes(lines) == [lines[0].taxCents, lines[1].taxCents];
    TwoTerms(lines[0].taxCents, lines[1].taxCents);
    NoShipping(input);
  }

  lemma {:induction false} OneOffFirst(a: PricingLine, b: PricingLine)
    requires a == TaxedLine(a.id, 5, 1, a.isTaxable) && b == TaxedLine(b.id, 5, 1, b.isTaxable)
    ensures EvaluateDiscount([a, b], Some(ONE_OFF)).perLine == [1, 0]
  {
    hide Allocated;
    assert Subtotals([a, b]) == [5, 5] && Eligibility([a, b], Some(ONE_OFF)) == [true, true];
    assert Masked([5, 5], [true, true]) == [5, 5];
    TwoTerms(5, 5);
    OneOverTwo();
    assert Masked([1, 0], [true, true]) == [1, 0];
  }

  lemma {:induction false} OneOverTwo()
    ensures Allocated(1, [5, 5]) == [1, 0]
  {
    hide Allocated;
    TwoTerms(5, 5);
    AllocatedSum(1, [5, 5]);
    AllocatedQuota(1, [5, 5], 10, 0);
    AllocatedQuota(1, [5, 5], 10, 1);
    LargestClaimFirst(1, [5, 5], 10, 0, 1);
    var parts := Allocated(1, [5, 5]);
    assert parts == [parts[0], parts[1]];
    TwoTerms(parts[0], parts[1]);
  }
}
