/**
 Buy X get Y takes off the cheapest units: the per-line amounts are a choice of units
 the lines really hold, and no other choice of that many eligible units costs less.
 */
module CheapestUnits {
  import opened Options
  import opened Arith
  import opened Sums
  import opened Sorting
  import opened Pricing

  /** How many eligible units each line holds. */
  function Holdings(lines: seq<PricingLine>, eligibility: seq<bool>): (r: seq<int>)
    requires |lines| == |eligibility|
    ensures |r| == |lines|
  {
    Masked(Quantities(lines), eligibility)
  }

  /** A choice of count eligible units: how many are taken from each line. */
  ghost predicate Choice(take: seq<int>, count: nat, lines: seq<PricingLine>, eligibility: seq<bool>)
    requires |lines| == |eligibility|
  {
    && |take| == |lines|
    && Sum(take) == count
    && forall i :: 0 <= i < |take| ==> 0 <= take[i] <= Holdings(lines, eligibility)[i]
  }

  function Prices(take: seq<int>, lines: seq<PricingLine>): (r: seq<int>)
    requires |take| == |lines|
    ensures |r| == |lines|
  {
    seq(|lines|, i requires 0 <= i < |lines| => lines[i].unitPriceCents * take[i])
  }

  lemma {:induction false} CountCopies(unit: Keyed, n: nat, tag: nat)
    ensures Count(Copies(unit, n), tag) == if unit.tag == tag then n else 0
  {
    if n > 0 {
      assert Copies(unit, n)[..n - 1] == Copies(unit, n - 1);
      CountCopies(unit, n - 1, tag);
    }
  }

  lemma {:induction false} CountUnits(lines: seq<PricingLine>, eligibility: seq<bool>, i: nat)
    requires |lines| == |eligibility|
    ensures Count(Units(lines, eligibility), i) == if i < |lines| then Holdings(lines, eligibility)[i] else 0
  {
    if lines != [] {
      var n := |lines| - 1;
      var last := if eligibility[n] then Copies(Keyed(lines[n].unitPriceCents, n), lines[n].quantity) else [];
      CountUnits(lines[..n], eligibility[..n], i);
      CountAppend(Units(lines[..n], eligibility[..n]), last, i);
      CountCopies(Keyed(lines[n].unitPriceCents, n), lines[n].quantity, i);
    }
  }

  lemma {:induction false} UnitCount(lines: seq<PricingLine>, eligibility: seq<bool>)
    requires |lines| == |eligibility|
    ensures |Units(lines, eligibility)| == Sum(Holdings(lines, eligibility))
  {
    if lines != [] {
      var n := |lines| - 1;
      UnitCount(lines[..n], eligibility[..n]);
      assert Holdings(lines, eligibility)[..n] == Holdings(lines[..n], eligibility[..n]);
    }
  }

  function EligibleUnits(lines: seq<PricingLine>, eligibility: seq<bool>): nat
    requires |lines| == |eligibility|
  {
    UnitCount(lines, eligibility);
    Sum(Holdings(lines, eligibility))
  }

  /** Units of one line all carry its price, so their charge is price times count. */
  lemma {:induction false} ChargeIsPrice(units: seq<Keyed>, i: nat, price: int)
    requires forall u :: u in units && u.tag == i ==> u.key == price
    ensures ChargeOf(units, i) == price * Count(units, i)
  {
    if units != [] {
      var n := |units| - 1;
      ChargeIsPrice(units[..n], i, price);
      Distribute(Count(units[..n], i), 1, price);
    }
  }

  /** What the lines are charged is Prices of the number of free units each of them gives. */
  lemma {:induction false} FreeUnitsArePriced(discount: PricingDiscount, lines: seq<PricingLine>,
                                              eligibility: seq<bool>, free: nat)
    requires |lines| == |eligibility|
    requires free
      == FreeCount(|Units(lines, eligibility)|, discount.buyQuantity.GetOr(0), discount.getQuantity.GetOr(0))
    ensures FreeUnits(discount, lines, eligibility)
      == Prices(Tally(|lines|, Sorted(Units(lines, eligibility))[..free]), lines)
    ensures Choice(Tally(|lines|, Sorted(Units(lines, eligibility))[..free]), free, lines, eligibility)
  {
    var sorted := Sorted(Units(lines, eligibility));
    UnitsAreUnits(lines, eligibility);
    forall u | u in sorted[..free] ensures u in sorted {}
    SumTally(|lines|, sorted[..free]);
    assert sorted == sorted[..free] + sorted[free..];
    forall i | 0 <= i < |lines|
      ensures ChargeOf(sorted[..free], i) == lines[i].unitPriceCents * Count(sorted[..free], i)
      ensures Count(sorted[..free], i) <= Holdings(lines, eligibility)[i]
    {
      ChargeIsPrice(sorted[..free], i, lines[i].unitPriceCents);
      CountSorted(Units(lines, eligibility), i);
      CountUnits(lines, eligibility, i);
      CountAppend(sorted[..free], sorted[free..], i);
    }
  }

  /**
   Against the price theta of the dearest free unit, lines cheaper than it give all they hold and dearer lines nothing.
   */
  lemma {:induction false} TakenByPrice(lines: seq<PricingLine>, eligibility: seq<bool>, free: nat, i: nat)
    requires |lines| == |eligibility| && i < |lines|
    requires 0 < free <= |Units(lines, eligibility)|
    ensures var sorted := Sorted(Units(lines, eligibility)); var theta := sorted[free - 1].key;
      && (lines[i].unitPriceCents < theta ==> Count(sorted[..free], i) == Holdings(lines, eligibility)[i])
      && (lines[i].unitPriceCents > theta ==> Count(sorted[..free], i) == 0)
  {
    var sorted := Sorted(Units(lines, eligibility));
    UnitsAreUnits(lines, eligibility);
    SortedAscending(Units(lines, eligibility));
    CountSorted(Units(lines, eligibility), i);
    CountUnits(lines, eligibility, i);
    PrefixByKey(sorted, free, i, lines[i].unitPriceCents);
  }

  lemma CheaperLine(price: nat, theta: int, taken: int, other: int, held: int, none: bool)
    requires 0 <= taken <= held && 0 <= other <= held
    requires if none then theta == 0 && taken == 0
      else (price < theta ==> taken == held) && (price > theta ==> taken == 0)
    ensures price * taken + (-theta) * taken <= price * other + (-theta) * other
  {
    Distribute(price, -theta, taken);
    Distribute(price, -theta, other);
    if price < theta {
      MulMonotone(other, taken, theta - price);
    } else if price > theta {
      MulMonotone(taken, other, price - theta);
    }
  }

  /** The amounts are a choice of free units, and the cheapest of all such choices. */
  lemma {:induction false} FreeUnitsAreCheapest(discount: PricingDiscount, lines: seq<PricingLine>,
                                                eligibility: seq<bool>, free: nat, other: seq<int>)
    requires |lines| == |eligibility|
    requires free
      == FreeCount(EligibleUnits(lines, eligibility), discount.buyQuantity.GetOr(0), discount.getQuantity.GetOr(0))
    requires Choice(other, free, lines, eligibility)
    ensures exists take ::
      Choice(take, free, lines, eligibility) && FreeUnits(discount, lines, eligibility) == Prices(take, lines)
    ensures Sum(FreeUnits(discount, lines, eligibility)) <= Sum(Prices(other, lines))
  {
    var units := Units(lines, eligibility);
    UnitCount(lines, eligibility);
    var take := Tally(|lines|, Sorted(units)[..free]);
    FreeUnitsArePriced(discount, lines, eligibility, free);
    var theta := if free == 0 then 0 else Sorted(units)[free - 1].key;
    var pt, po := Prices(take, lines), Prices(other, lines);
    var a := seq(|lines|, i requires 0 <= i < |lines| => pt[i] + (-theta) * take[i]);
    var b := seq(|lines|, i requires 0 <= i < |lines| => po[i] + (-theta) * other[i]);
    if free == 0 {
      assert Sorted(units)[..free] == [];
    }
    forall i | 0 <= i < |lines| ensures a[i] <= b[i] {
      if free > 0 {
        TakenByPrice(lines, eligibility, free, i);
      }
      assert take[i] == Count(Sorted(units)[..free], i);
      CheaperLine(lines[i].unitPriceCents, theta, take[i], other[i], Holdings(lines, eligibility)[i], free == 0);
    }
    SumMonotone(a, b);
    SumLinear(a, pt, -theta, take);
    SumLinear(b, po, -theta, other);
  }
}
