/**
 Largest-remainder allocation: splitting an amount over weights so that the parts
 add up to it exactly (src/lib/money.ts, allocate).

 An exact share is the rational amount * w / total. It is handled as a floor and a
 remainder over the common denominator total.
 */
module Allocation {
  import opened Arith
  import opened Sums
  import opened Sorting

  /** Math.trunc(a / n) for n > 0. */
  function Trunc(a: int, n: int): int
    requires n > 0
  {
    if a < 0 then -((-a) / n) else a / n
  }

  function Floors(amount: int, weights: seq<int>, total: int): (r: seq<int>)
    requires total > 0
    ensures |r| == |weights|
  {
    seq(|weights|, i requires 0 <= i < |weights| => (amount * weights[i]) / total)
  }

  function Remainders(amount: int, weights: seq<int>, total: int): (r: seq<int>)
    requires total > 0
    ensures |r| == |weights|
  {
    seq(|weights|, i requires 0 <= i < |weights| => (amount * weights[i]) % total)
  }

  /** Each index with its remainder, keyed so that ascending means largest remainder first. */
  function Claims(remainders: seq<int>): (r: seq<Keyed>)
    ensures |r| == |remainders|
  {
    seq(|remainders|, i requires 0 <= i < |remainders| => Keyed(-remainders[i], i))
  }

  /** The indices that receive one of the left-over units, in the order they receive it. */
  function Winners(remainders: seq<int>, left: int): (r: seq<Keyed>)
    ensures 0 <= left <= |remainders| ==> |r| == left
  {
    var order := Sorted(Claims(remainders));
    order[..if left < 0 then 0 else if left > |order| then |order| else left]
  }

  function ByRemainder(floors: seq<int>, remainders: seq<int>, left: int): (r: seq<int>)
    requires |floors| == |remainders|
    ensures |r| == |floors|
  {
    WithOneEach(floors, Winners(remainders, left))
  }

  /** The floors, with one more for each of the given indices. */
  function WithOneEach(floors: seq<int>, winners: seq<Keyed>): (r: seq<int>)
    ensures |r| == |floors|
  {
    seq(|floors|, i requires 0 <= i < |floors| => floors[i] + Count(winners, i))
  }

  function Evenly(base: int, left: int, n: nat): (r: seq<int>)
    ensures |r| == n
  {
    seq(n, i => base + if i < left then 1 else 0)
  }

  function Allocated(amount: int, weights: seq<int>): (r: seq<int>)
    ensures |r| == |weights|
  {
    var total := Sum(weights);
    if weights == [] then
      [] // the even share is not a number, and every loop over the parts is empty
    else if total <= 0 then
      var base := Trunc(amount, |weights|);
      Evenly(base, amount - base * |weights|, |weights|)
    else
      var floors := Floors(amount, weights, total);
      ByRemainder(floors, Remainders(amount, weights, total), amount - Sum(floors))
  }

  method Allocate(amount: int, weights: seq<int>) returns (parts: seq<int>)
    ensures parts == Allocated(amount, weights)
  {
    if weights == [] {
      return [];
    }
    var total := Sum(weights);
    if total <= 0 {
      var base := Trunc(amount, |weights|);
      TruncRemainder(amount, |weights|);
      parts := Spread(base, amount - base * |weights|, |weights|);
    } else {
      var floored := Floors(amount, weights, total);
      parts := GiveLeftover(floored, Remainders(amount, weights, total), amount - Sum(floored));
    }
  }

  /** The branch for a total weight that is not positive: units go to the front, cyclically. */
  method Spread(base: int, left: int, n: nat) returns (parts: seq<int>)
    requires left < n
    ensures parts == Evenly(base, left, n)
  {
    parts := seq(n, _ => base);
    var remainder := left;
    var i := 0;
    while remainder > 0
      invariant |parts| == n
      invariant i == if left < 0 then 0 else left - remainder
      invariant left >= 0 ==> 0 <= remainder <= left
      invariant left < 0 ==> remainder == left
      invariant forall j :: 0 <= j < n ==> parts[j] == base + if j < i then 1 else 0
    {
      parts := parts[i := parts[i] + 1];
      i := (i + 1) % |parts|;
      remainder := remainder - 1;
    }
  }

  /** The branch for a positive total: one unit each to the largest remainders. */
  method GiveLeftover(floors: seq<int>, remainders: seq<int>, left: int) returns (floored: seq<int>)
    requires |floors| == |remainders|
    ensures floored == ByRemainder(floors, remainders, left)
  {
    hide Sorted, Count, WithOneEach;
    var byRemainder := Sorted(Claims(remainders));
    ClaimsSorted(remainders);
    NoneMore(floors);
    floored := floors;
    var remainder := left;
    for k := 0 to |byRemainder|
      invariant remainder == left - k && (k > 0 ==> remainder >= 0)
      invariant floored == WithOneEach(floors, byRemainder[..k])
    {
      if remainder <= 0 {
        return;
      }
      var index := byRemainder[k].tag;
      assert byRemainder[k] in byRemainder;
      assert byRemainder[..k + 1] == byRemainder[..k] + [byRemainder[k]];
      OneMore(floors, byRemainder[..k], byRemainder[k]);
      floored := floored[index := floored[index] + 1];
      remainder := remainder - 1;
    }
    assert byRemainder[..|byRemainder|] == byRemainder;
  }

  lemma {:induction false} NoneMore(floors: seq<int>)
    ensures WithOneEach(floors, []) == floors
  {
  }

  lemma {:induction false} OneMore(floors: seq<int>, winners: seq<Keyed>, next: Keyed)
    requires next.tag < |floors|
    ensures var before := WithOneEach(floors, winners);
      WithOneEach(floors, winners + [next]) == before[next.tag := before[next.tag] + 1]
  {
    assert (winners + [next])[..|winners|] == winners;
  }

  // ---- helpers -----------------------------------------------------------

  lemma {:induction false} TruncRemainder(amount: int, n: int)
    requires n > 0
    ensures 0 <= amount ==> 0 <= amount - Trunc(amount, n) * n < n
    ensures amount < 0 ==> amount - Trunc(amount, n) * n == -((-amount) % n)
  {
    if amount < 0 {
      DivMod(-amount, n);
      assert Trunc(amount, n) * n == -(n * ((-amount) / n));
    } else {
      DivMod(amount, n);
    }
  }

  lemma {:induction false} ClaimsSorted(remainders: seq<int>)
    ensures var order := Sorted(Claims(remainders));
      Ascending(order) && forall x :: x in order ==> x.tag < |remainders| && x.key == -remainders[x.tag]
  {
    var claims := Claims(remainders);
    SortedKeeps(claims);
    SortedAscending(claims);
    forall x | x in Sorted(claims) ensures x in claims {
      assert x in multiset(Sorted(claims));
    }
  }

  lemma {:induction false} ClaimsOnce(remainders: seq<int>, tag: nat)
    ensures Count(Claims(remainders), tag) == if tag < |remainders| then 1 else 0
  {
    if remainders != [] {
      var n := |remainders| - 1;
      assert Claims(remainders)[..n] == Claims(remainders[..n]);
      ClaimsOnce(remainders[..n], tag);
    }
  }

  lemma {:induction false} SumAtLeast(s: seq<int>, j: nat)
    requires (forall i :: 0 <= i < |s| ==> s[i] >= 0) && j < |s|
    ensures 0 <= s[j] <= Sum(s)
  {
    var n := |s| - 1;
    if j < n {
      SumAtLeast(s[..n], j);
    } else if n > 0 {
      SumAtLeast(s[..n], n - 1);
    }
  }

  lemma {:induction false} SumOfShares(amount: int, weights: seq<int>, total: int)
    requires total > 0
    ensures total * Sum(Floors(amount, weights, total)) + Sum(Remainders(amount, weights, total))
      == amount * Sum(weights)
  {
    var f, m := Floors(amount, weights, total), Remainders(amount, weights, total);
    if weights != [] {
      var n := |weights| - 1;
      assert f[..n] == Floors(amount, weights[..n], total);
      assert m[..n] == Remainders(amount, weights[..n], total);
      SumOfShares(amount, weights[..n], total);
      Distribute(Sum(f[..n]), f[n], total);
      Distribute(Sum(weights[..n]), weights[n], amount);
      DivMod(amount * weights[n], total);
    }
  }

  /** What a run of the allocation hands out: remainders below the total that add up to left whole units. */
  ghost predicate Fractions(m: seq<int>, total: int, left: int) {
    && total > 0
    && (forall i :: 0 <= i < |m| ==> 0 <= m[i] < total)
    && Sum(m) == left * total
    && 0 <= left <= |m|
  }

  lemma {:induction false} LeftoverFractions(amount: int, weights: seq<int>, total: int)
    requires total == Sum(weights) > 0
    ensures Fractions(Remainders(amount, weights, total), total, amount - Sum(Floors(amount, weights, total)))
  {
    var m := Remainders(amount, weights, total);
    var f := Sum(Floors(amount, weights, total));
    SumOfShares(amount, weights, total);
    Distribute(amount, f, total);
    forall i | 0 <= i < |m| ensures 0 <= m[i] < total {
      DivMod(amount * weights[i], total);
    }
    SumBounds(m, 0, total);
    if amount - f < 0 {
      MulMonotone(amount - f, -1, total);
    } else if amount - f > |m| {
      MulMonotone(|m| + 1, amount - f, total);
      Distribute(|m|, 1, total);
    }
  }

  /** Only indices whose share is not an integer receive a left-over unit. */
  lemma {:induction false} WinnersHaveFractions(m: seq<int>, total: int, left: int, k: nat)
    requires Fractions(m, total, left) && k < left
    ensures Winners(m, left)[k].key < 0
  {
    hide Sorted, Sum;
    var order := Sorted(Claims(m));
    ClaimsSorted(m);
    var keys := Keys(order);
    SumKeysSorted(Claims(m));
    SumLinear(Keys(Claims(m)), m, -2, m);
    forall i | 0 <= i < |keys| ensures 1 - total <= keys[i] <= 0 {
      assert order[i] in order;
    }
    if order[k].key >= 0 {
      forall i | k <= i < |keys| ensures keys[i] == 0 {
        assert order[k].key <= order[i].key || i == k;
      }
      SumFromZeros(keys, 1 - total, k);
      TooFew(total, left, k);
    }
  }

  lemma {:induction false} SumFromZeros(keys: seq<int>, lo: int, k: nat)
    requires k <= |keys|
    requires forall i :: 0 <= i < |keys| ==> lo <= keys[i] <= 0
    requires forall i :: k <= i < |keys| ==> keys[i] == 0
    ensures Sum(keys) >= k * lo
  {
    assert keys == keys[..k] + keys[k..];
    SumAppend(keys[..k], keys[k..]);
    SumBounds(keys[..k], lo, 0);
    SumConstant(keys[k..], 0);
  }

  /** k remainders below the total cannot add up to more than k totals. */
  lemma TooFew(total: int, left: int, k: nat)
    requires 0 < total && k < left
    ensures k * (1 - total) > -(left * total)
  {
    Distribute(1, total, k);
    MulMonotone(k + 1, left, total);
    Distribute(k, 1, total);
  }

  /** Every index wins at most once, and the last winner's remainder separates winners from losers. */
  lemma {:induction false} WinOnce(m: seq<int>, left: nat, i: nat)
    requires left <= |m| && i < |m|
    ensures var winners := Winners(m, left);
      && 0 <= Count(winners, i) <= 1
      && (Count(winners, i) == 1 ==> left > 0 && m[i] >= -winners[left - 1].key)
      && (Count(winners, i) == 0 && left > 0 ==> m[i] <= -winners[left - 1].key)
  {
    var order := Sorted(Claims(m));
    ClaimsSorted(m);
    ClaimsOnce(m, i);
    CountSorted(Claims(m), i);
    CountPrefix(order, left, i);
    if left > 0 {
      PrefixByKey(order, left, i, -m[i]);
    }
  }

  /** Winners' remainders are positive; without left-over units every share is whole. */
  lemma {:induction false} WinnerOrLoser(m: seq<int>, total: int, left: int, i: nat)
    requires Fractions(m, total, left) && i < |m|
    ensures Count(Winners(m, left), i) == 1 ==> m[i] > 0
    ensures left == 0 ==> m[i] == 0
  {
    if left == 0 {
      SumAtLeast(m, i);
    } else {
      WinOnce(m, left, i);
      WinnersHaveFractions(m, total, left, left - 1);
    }
  }

  // ---- main results ------------------------------------------------------

  /** Each part is the floor of its exact share or one more, and less than one unit away from it. */
  lemma {:induction false} AllocatedQuota(amount: int, weights: seq<int>, total: int, i: nat)
    requires total == Sum(weights) > 0 && i < |weights|
    ensures var part := Allocated(amount, weights)[i];
      && -total < part * total - amount * weights[i] < total
      && (amount * weights[i]) / total <= part <= (amount * weights[i]) / total + 1
  {
    var m := Remainders(amount, weights, total);
    var floors := Floors(amount, weights, total);
    var left := amount - Sum(floors);
    LeftoverFractions(amount, weights, total);
    WinOnce(m, left, i);
    WinnerOrLoser(m, total, left, i);
    DivMod(amount * weights[i], total);
    assert Allocated(amount, weights)[i] == floors[i] + Count(Winners(m, left), i);
    Distribute(floors[i], Count(Winners(m, left), i), total);
  }

  /** The parts add up to the amount, exactly when there is something to split it over. */
  lemma {:induction false} AllocatedSum(amount: int, weights: seq<int>)
    ensures Sum(Allocated(amount, weights)) == amount <==>
      if weights == [] then amount == 0
      else Sum(weights) > 0 || amount >= 0 || (-amount) % |weights| == 0
  {
    var total := Sum(weights);
    if weights != [] && total > 0 {
      var m := Remainders(amount, weights, total);
      var floors := Floors(amount, weights, total);
      LeftoverFractions(amount, weights, total);
      SumOfWinners(floors, m, amount - Sum(floors));
    } else if weights != [] {
      var base := Trunc(amount, |weights|);
      TruncRemainder(amount, |weights|);
      SumEvenly(base, amount - base * |weights|, |weights|);
    }
  }

  /** A negative unit over two zero weights is lost: the share truncates to zero and nothing is taken back. */
  lemma {:induction false} NegativeUnitLost()
    ensures Allocated(-1, [0, 0]) == [0, 0] && Sum(Allocated(-1, [0, 0])) == 0
  {
    SumConstant([0, 0], 0);
    assert Allocated(-1, [0, 0]) == [0, 0];
  }

  lemma {:induction false} SumOfWinners(floors: seq<int>, m: seq<int>, left: int)
    requires |floors| == |m| && 0 <= left <= |m|
    ensures Sum(ByRemainder(floors, m, left)) == Sum(floors) + left
  {
    var winners := Winners(m, left);
    ClaimsSorted(m);
    forall x | x in winners ensures x.tag < |m| {
      assert x in Sorted(Claims(m));
    }
    SumTally(|m|, winners);
    SumLinear(ByRemainder(floors, m, left), floors, 1, Tally(|m|, winners));
  }

  lemma {:induction false} SumEvenly(base: int, left: int, n: nat)
    requires left < n
    ensures Sum(Evenly(base, left, n)) == base * n + if left < 0 then 0 else left
  {
    var k := if left < 0 then 0 else left;
    var e := Evenly(base, left, n);
    assert e == e[..k] + e[k..];
    SumAppend(e[..k], e[k..]);
    SumConstant(e[..k], base + 1);
    SumConstant(e[k..], base);
    Distribute(base, 1, k);
    Distribute(n, k, base);
  }

  /** The claims are sorted by key and tag, and each index has one. */
  lemma {:induction false} ClaimsByTag(m: seq<int>)
    ensures var order := Sorted(Claims(m));
      && (forall i, j :: 0 <= i < j < |order| ==> Before(order[i], order[j]))
      && (forall x :: x in order ==> x.tag < |m| && x.key == -m[x.tag])
  {
    hide Sorted;
    ClaimsSorted(m);
    SortedByTag(Claims(m));
  }

  lemma {:induction false} ClaimOf(m: seq<int>, i: nat) returns (p: nat)
    requires i < |m|
    ensures p < |Sorted(Claims(m))| && Sorted(Claims(m))[p] == Keyed(-m[i], i)
  {
    hide Sorted, Claims, Count, Ascending;
    var order := Sorted(Claims(m));
    ClaimsSorted(m);
    CountSorted(Claims(m), i);
    ClaimsOnce(m, i);
    CountPositive(order, i);
    p :| 0 <= p < |order| && order[p].tag == i;
    assert order[p] in order;
  }

  /** A larger fraction, or an equal one further to the front, is never passed over. */
  lemma {:induction false} LeftoverOrder(m: seq<int>, left: nat, i: nat, j: nat)
    requires left <= |m| && i < |m| && j < |m|
    requires m[i] > m[j] || (m[i] == m[j] && i < j)
    ensures Count(Winners(m, left), j) <= Count(Winners(m, left), i)
  {
    hide Sorted, Count, Claims, Ascending;
    var order := Sorted(Claims(m));
    WinOnce(m, left, i);
    WinOnce(m, left, j);
    CountPositive(order[..left], j);
    if Count(order[..left], j) > 0 {
      var q :| 0 <= q < left && order[..left][q].tag == j;
      ClaimsByTag(m);
      var p := ClaimOf(m, i);
      assert order[q] in order;
      assert p < q;
      assert order[..left][p] == order[p];
      CountPositive(order[..left], i);
    }
  }

  /**
   Whoever has the larger fractional claim, or an equal one further to the front, gets at least as much
   above its floor.
   */
  lemma {:induction false} LargestClaimFirst(amount: int, weights: seq<int>, total: int, i: nat, j: nat)
    requires total == Sum(weights) > 0 && i < |weights| && j < |weights|
    requires var a, b := (amount * weights[i]) % total, (amount * weights[j]) % total; a > b || (a == b && i < j)
    ensures Allocated(amount, weights)[i] - (amount * weights[i]) / total
         >= Allocated(amount, weights)[j] - (amount * weights[j]) / total
  {
    LeftoverFractions(amount, weights, total);
    LeftoverOrder(Remainders(amount, weights, total), amount - Sum(Floors(amount, weights, total)), i, j);
  }

  /**
   Without a positive total a non-negative amount is spread evenly, one unit more to each of the first indices
   until it is used up; of a negative one every index gets the share cut off to whole units.
   */
  lemma {:induction false} AllocatedEvenly(amount: int, weights: seq<int>, i: nat)
    requires Sum(weights) <= 0 && i < |weights|
    ensures Allocated(amount, weights)[i] ==
      if amount < 0 then -(-amount / |weights|)
      else amount / |weights| + if i < amount % |weights| then 1 else 0
  {
    TruncRemainder(amount, |weights|);
    DivMod(if amount < 0 then -amount else amount, |weights|);
  }

  /**
   With non-negative weights, no part exceeds its weight unless the amount exceeds the total, and every part
   does reach it then.
   */
  lemma {:induction false} AllocatedAgainstWeights(amount: int, weights: seq<int>, i: nat)
    requires (forall j :: 0 <= j < |weights| ==> weights[j] >= 0) && i < |weights| && Sum(weights) > 0
    ensures amount <= Sum(weights) ==> Allocated(amount, weights)[i] <= weights[i]
    ensures amount >= Sum(weights) ==> Allocated(amount, weights)[i] >= weights[i]
    ensures amount >= 0 ==> Allocated(amount, weights)[i] >= 0
  {
    AllocatedQuota(amount, weights, Sum(weights), i);
    QuotaAgainstWeight(amount, weights[i], Sum(weights), Allocated(amount, weights)[i]);
  }

  lemma {:induction false} QuotaAgainstWeight(a: int, w: int, total: int, part: int)
    requires 0 <= w && 0 < total
    requires -total < part * total - a * w < total
    ensures a <= total ==> part <= w
    ensures a >= total ==> part >= w
    ensures a >= 0 ==> part >= 0
  {
    if a <= total && part > w {
      MulMonotone(a, total, w);
      MulMonotone(w + 1, part, total);
      Distribute(w, 1, total);
    }
    if a >= total && part < w {
      MulMonotone(total, a, w);
      MulMonotone(part, w - 1, total);
      Distribute(w, 1, total);
    }
    if a >= 0 && part < 0 {
      MulMonotone(0, a, w);
      MulMonotone(part, -1, total);
    }
  }

  /** An index of zero weight receives nothing, whatever the amount. */
  lemma {:induction false} AllocatedZeroWeight(amount: int, weights: seq<int>, i: nat)
    requires Sum(weights) > 0 && i < |weights| && weights[i] == 0
    ensures Allocated(amount, weights)[i] == 0
  {
    AllocatedQuota(amount, weights, Sum(weights), i);
    SameMultiple(Sum(weights), Allocated(amount, weights)[i], 0);
  }

  function Targets(amount: int, weights: seq<int>): (r: seq<int>)
    ensures |r| == |weights|
  {
    seq(|weights|, i requires 0 <= i < |weights| => amount * weights[i])
  }

  /** How far a split is from the exact shares target / total, index by index, in units of 1 / total. */
  function Deviations(split: seq<int>, targets: seq<int>, total: int): (r: seq<int>)
    requires |split| == |targets|
    ensures |r| == |split|
  {
    seq(|split|, i requires 0 <= i < |split| => Abs(split[i] * total - targets[i]))
  }

  /** No other integer split of the amount has a smaller total deviation from the exact shares. */
  lemma {:induction false} AllocatedOptimal(amount: int, weights: seq<int>, other: seq<int>)
    requires Sum(weights) > 0
    requires |other| == |weights| && Sum(other) == amount
    ensures Sum(Deviations(Allocated(amount, weights), Targets(amount, weights), Sum(weights)))
         <= Sum(Deviations(other, Targets(amount, weights), Sum(weights)))
  {
    var total := Sum(weights);
    var parts := Allocated(amount, weights);
    var m := Remainders(amount, weights, total);
    var left := amount - Sum(Floors(amount, weights, total));
    LeftoverFractions(amount, weights, total);
    var theta := Threshold(m, total, left);
    AllocatedSum(amount, weights);
    forall i | 0 <= i < |weights|
      ensures Penalised(total, theta, amount * weights[i], parts[i])
        <= Penalised(total, theta, amount * weights[i], other[i])
    {
      WinOnce(m, left, i);
      WinnerOrLoser(m, total, left, i);
      DivMod(amount * weights[i], total);
      PenalisedMinimum(total, theta, amount * weights[i], (amount * weights[i]) / total, m[i],
                       Count(Winners(m, left), i), other[i]);
    }
    DeviationsByPenalty(parts, other, Targets(amount, weights), total, theta);
  }

  /** The smallest remainder that still wins. */
  ghost function Threshold(m: seq<int>, total: int, left: int): (theta: int)
    requires Fractions(m, total, left)
    ensures 0 <= theta < total
    ensures left > 0 ==> theta == -Winners(m, left)[left - 1].key
  {
    if left == 0 then 0 else
      ClaimsSorted(m);
      assert Winners(m, left)[left - 1] in Sorted(Claims(m));
      -Winners(m, left)[left - 1].key
  }

  /** Deviation of q units from the share target / total, less a price of total - 2 * theta a unit. */
  function Penalised(total: int, theta: int, target: int, q: int): int {
    Abs(q * total - target) - (total - 2 * theta) * q
  }

  /** At that price, the floor (remainder up to theta) or one more (remainder from theta) is a best number of units. */
  lemma PenalisedMinimum(total: int, theta: int, target: int, f: int, m: int, c: int, q: int)
    requires target == total * f + m && 0 <= m < total && 0 <= theta < total
    requires (c == 0 && m <= theta) || (c == 1 && m >= theta)
    ensures Penalised(total, theta, target, f + c) <= Penalised(total, theta, target, q)
  {
    PenalisedFromFloor(total, theta, target, f, m, c);
    PenalisedFromFloor(total, theta, target, f, m, q - f);
    BestUnits(total, theta, m, c, q - f);
  }

  lemma PenalisedFromFloor(total: int, theta: int, target: int, f: int, m: int, t: int)
    requires target == total * f + m
    ensures Penalised(total, theta, target, f + t)
      == Abs(t * total - m) - t * total + 2 * (theta * t) - (total - 2 * theta) * f
  {
    Distribute(f, t, total);
    Distribute(f, t, total - 2 * theta);
    Distribute(total, 2 * theta, t);
    assert 2 * theta * t == 2 * (theta * t);
  }

  lemma BestUnits(total: int, theta: int, m: int, c: int, t: int)
    requires 0 <= m < total && 0 <= theta < total
    requires (c == 0 && m <= theta) || (c == 1 && m >= theta)
    ensures Abs(c * total - m) - c * total + 2 * (theta * c) <= Abs(t * total - m) - t * total + 2 * (theta * t)
  {
    if t <= 0 {
      MulMonotone(t, 0, total - theta);
      Distribute(total, theta, t);
      MulMonotone(t, 0, total);
    } else {
      MulMonotone(1, t, total);
      MulMonotone(1, t, theta);
    }
  }

  lemma {:induction false} DeviationsByPenalty(p: seq<int>, q: seq<int>, targets: seq<int>, total: int, theta: int)
    requires |p| == |q| == |targets| && Sum(p) == Sum(q)
    requires forall i :: 0 <= i < |p| ==>
      Penalised(total, theta, targets[i], p[i]) <= Penalised(total, theta, targets[i], q[i])
    ensures Sum(Deviations(p, targets, total)) <= Sum(Deviations(q, targets, total))
  {
    SumMonotone(Penalties(p, targets, total, theta), Penalties(q, targets, total, theta));
    SumOfPenalties(p, targets, total, theta);
    SumOfPenalties(q, targets, total, theta);
  }

  function Penalties(p: seq<int>, targets: seq<int>, total: int, theta: int): (r: seq<int>)
    requires |p| == |targets|
    ensures |r| == |p|
  {
    seq(|p|, i requires 0 <= i < |p| => Penalised(total, theta, targets[i], p[i]))
  }

  lemma {:induction false} SumOfPenalties(p: seq<int>, targets: seq<int>, total: int, theta: int)
    requires |p| == |targets|
    ensures Sum(Penalties(p, targets, total, theta))
      == Sum(Deviations(p, targets, total)) - (total - 2 * theta) * Sum(p)
  {
    var price := total - 2 * theta;
    forall i | 0 <= i < |p|
      ensures Penalties(p, targets, total, theta)[i] == Deviations(p, targets, total)[i] + (-price) * p[i]
    {
    }
    SumLinear(Penalties(p, targets, total, theta), Deviations(p, targets, total), -price, p);
  }
}
