/**
 Rounding and basis-point arithmetic on integer minor units (src/lib/money.ts).
 A value that the program holds as a quotient is kept here as numerator and
 denominator, so that rounding is exact.
 */
module Money {
  import opened Arith
  import opened Sums

  /** Math.round(num / den): halves go up. */
  function MathRound(num: int, den: int): int
    requires den > 0
  {
    (2 * num + den) / (2 * den)
  }

  function RoundHalfAway(num: int, den: int): int
    requires den > 0
  {
    if num < 0 then -MathRound(-num, den) else MathRound(num, den)
  }

  function ApplyBps(amount: int, bps: int): int {
    RoundHalfAway(amount * bps, 10000)
  }

  /** gross - gross * 10000 / (10000 + bps), over the common denominator. */
  function TaxFromInclusive(gross: int, bps: nat): int {
    RoundHalfAway(gross * (10000 + bps) - gross * 10000, 10000 + bps)
  }

  function ClampNonNegative(amount: int): int {
    if amount < 0 then 0 else amount
  }

  /** Rounding goes to a nearest integer; a half goes away from zero. */
  ghost predicate Nearest(num: int, den: int, r: int) {
    if num < 0 then -den < 2 * num - 2 * (r * den) <= den else -den <= 2 * num - 2 * (r * den) < den
  }

  lemma RoundsToNearest(num: int, den: int, r: int)
    requires den > 0
    ensures Nearest(num, den, r) <==> r == RoundHalfAway(num, den)
  {
    var n := if num < 0 then -num else num;
    var q := if num < 0 then -r else r;
    assert q * den == if num < 0 then -(r * den) else r * den;
    RoundUp(n, den, q);
  }

  lemma RoundUp(num: int, den: int, q: int)
    requires den > 0
    ensures -den <= 2 * num - 2 * (q * den) < den <==> q == MathRound(num, den)
  {
    var a, n := 2 * num + den, 2 * den;
    DivMod(a, n);
    assert n * (a / n) == 2 * ((a / n) * den);
    assert n * q == 2 * (q * den);
    if -den <= 2 * num - 2 * (q * den) < den {
      DivModUnique(a, n, q, a - n * q);
    }
  }

  /** How many units a remainder of less than two units rounds up to. */
  function UnitsUp(r: int, den: int): int {
    if 2 * r >= 3 * den then 2 else if 2 * r >= den then 1 else 0
  }

  /** What rounding two amounts apart adds to rounding their sum. */
  function SplitCarry(x: int, y: int, den: int): (carry: int)
    requires den > 0 && 0 <= x < den && 0 <= y < den
    ensures -1 <= carry <= 1
  {
    UnitsUp(x, den) + UnitsUp(y, den) - UnitsUp(x + y, den)
  }

  lemma RoundsUp(num: nat, den: int, q: int, r: int)
    requires den > 0 && num == den * q + r && 0 <= r < 2 * den
    ensures RoundHalfAway(num, den) == q + UnitsUp(r, den)
  {
    Distribute(q, UnitsUp(r, den), den);
    RoundsToNearest(num, den, q + UnitsUp(r, den));
  }

  /** Two amounts rounded apart are their sum rounded and the carry of their remainders. */
  lemma RoundedApart(a: nat, b: nat, den: int)
    requires den > 0
    ensures RoundHalfAway(a, den) + RoundHalfAway(b, den)
      == RoundHalfAway(a + b, den) + SplitCarry(a % den, b % den, den)
  {
    DivMod(a, den);
    DivMod(b, den);
    Distribute(a / den, b / den, den);
    RoundsUp(a, den, a / den, a % den);
    RoundsUp(b, den, b / den, b % den);
    RoundsUp(a + b, den, a / den + b / den, a % den + b % den);
  }

  /** Refunds mirror charges: both rates are odd functions of the amount. */
  lemma RoundingIsSymmetric(amount: int, bps: nat)
    ensures ApplyBps(-amount, bps) == -ApplyBps(amount, bps)
    ensures TaxFromInclusive(-amount, bps) == -TaxFromInclusive(amount, bps)
  {
    assert (-amount) * bps == -(amount * bps);
    assert (-amount) * (10000 + bps) == -(amount * (10000 + bps));
    ZeroRounds(10000);
    ZeroRounds(10000 + bps);
  }

  lemma ZeroRounds(den: int)
    requires den > 0
    ensures RoundHalfAway(0, den) == 0
  {
    RoundsToNearest(0, den, 0);
  }

  /** Twice the error of the two rates, in units of 1 / 10000 and 1 / (10000 + bps). */
  lemma RateErrors(amount: int, bps: nat)
    ensures var t := ApplyBps(amount, bps); -10000 <= 2 * (amount * bps) - 20000 * t <= 10000
    ensures var t := TaxFromInclusive(amount, bps);
      -10000 - bps <= 2 * (amount * bps) - 20000 * t - 2 * (t * bps) <= 10000 + bps
  {
    RoundsToNearest(amount * bps, 10000, ApplyBps(amount, bps));
    var num := amount * (10000 + bps) - amount * 10000;
    Distribute(10000, bps, amount);
    assert num == amount * bps;
    var t := TaxFromInclusive(amount, bps);
    RoundsToNearest(num, 10000 + bps, t);
    Distribute(10000, bps, t);
  }

  /** Tax added on top of a net price is exactly the tax backed out of the resulting gross price. */
  lemma TaxRoundTrip(net: int, bps: nat)
    ensures TaxFromInclusive(net + ApplyBps(net, bps), bps) == ApplyBps(net, bps)
  {
    var t := ApplyBps(net, bps);
    var gross := net + t;
    var num := gross * (10000 + bps) - gross * 10000;
    Distribute(10000, bps, gross);
    Distribute(net, t, bps);
    Distribute(10000, bps, t);
    RateErrors(net, bps);
    if bps == 0 {
      ZeroRounds(10000);
    }
    RoundsToNearest(num, 10000 + bps, t);
  }

  /**
   Taxing the net left after backing tax out of a gross price misses that tax by at most (20000 + bps) / 20000 units.
   */
  lemma RetaxedNet(gross: int, bps: nat)
    ensures var tax := TaxFromInclusive(gross, bps);
      && 20000 * Abs(ApplyBps(gross - tax, bps) - tax) <= 20000 + bps
      && (bps <= 10000 ==> Abs(ApplyBps(gross - tax, bps) - tax) <= 1)
  {
    var tax := TaxFromInclusive(gross, bps);
    RateErrors(gross, bps);
    RateErrors(gross - tax, bps);
    Distribute(gross, tax, bps);
  }

  /** Backing one rate out of a gross price leaves a net price between nothing and the gross. */
  lemma InclusiveTaxWithinGross(gross: nat, bps: nat)
    ensures 0 <= TaxFromInclusive(gross, bps) <= gross
  {
    var t := TaxFromInclusive(gross, bps);
    RateErrors(gross, bps);
    MulMonotone(0, gross, bps);
    if t < 0 {
      MulMonotone(t, -1, 10000 + bps);
      Distribute(10000, bps, t);
    } else if t > gross {
      MulMonotone(gross + 1, t, 10000 + bps);
      Distribute(gross, 1, 10000 + bps);
      Distribute(10000, bps, t);
      Distribute(10000, bps, gross);
    }
  }
}
