/** The weighting engine of CollectionSelector: four rarity tiers are merged
    into one flat sequence in which each tier's items are repeated by an
    integer multiplier, so that a uniform pick over the result approximates
    the intended drop rates. The C# code computes the multipliers in double
    arithmetic; here they are exact reals, rounded as Math.Round(x, 3)
    (ties to even) and then taken to the ceiling. */
module Weighting {

  /** Math.Max on doubles. */
  function Max(a: real, b: real): (m: real)
    ensures a <= m && b <= m && (m == a || m == b)
  {
    if a >= b then a else b
  }

  /** Half a thousandth: the most that rounding to three decimals moves a value. */
  const Tolerance: real := 1.0 / 2000.0

  /** Math.Round(x, 3): the nearest multiple of 0.001, a tie going to the even multiple. */
  function Round3(x: real): (r: real)
    ensures (r * 1000.0).Floor as real == r * 1000.0
    ensures x * 1000.0 - 0.5 <= r * 1000.0 <= x * 1000.0 + 0.5
    ensures (r * 1000.0 - x * 1000.0 == 0.5 || x * 1000.0 - r * 1000.0 == 0.5) ==> (r * 1000.0).Floor % 2 == 0
    ensures x - Tolerance <= r <= x + Tolerance
  {
    var scaled := x * 1000.0;
    var n := scaled.Floor;
    var f := scaled - n as real;
    var k := if f < 0.5 then n else if f > 0.5 then n + 1 else if n % 2 == 0 then n else n + 1;
    assert scaled - 0.5 <= k as real <= scaled + 0.5;
    k as real / 1000.0
  }

  /** Math.Ceiling: the least integer not below y. */
  function Ceiling(y: real): (c: int)
    ensures c as real - 1.0 < y <= c as real
  {
    -((-y).Floor)
  }

  /** RoundMultiplier: round to three decimals, then take the ceiling. */
  function RoundMultiplier(raw: real): (m: int)
    ensures raw - Tolerance <= m as real < raw + 1.0 + Tolerance
    ensures 1.0 <= raw ==> 1 <= m
  {
    Ceiling(Round3(raw))
  }

  /** The least c with n <= c * d: the exact ceiling of n / d. */
  function CeilDiv(n: int, d: int): (c: int)
    requires 0 < d
    ensures (c - 1) * d < n <= c * d
  {
    if n % d == 0 then n / d else n / d + 1
  }

  /** Rounding to three decimals keeps an integer as it is. */
  lemma Round3OfInteger(q: int)
    ensures Round3(q as real) == q as real
  {
    assert (q as real * 1000.0) == (q * 1000) as real;
    assert (q as real * 1000.0).Floor == q * 1000;
  }

  /** Rounding and then taking the ceiling never reverses an order. */
  lemma RoundMultiplierMonotonic(x: real, y: real)
    requires x <= y
    ensures RoundMultiplier(x) <= RoundMultiplier(y)
  {
    var sx, sy := x * 1000.0, y * 1000.0;
    assert sx <= sy;
    var nx, ny := sx.Floor, sy.Floor;
    assert nx <= ny;
    assert Round3(x) <= Round3(y);
  }

  /** With a denominator below 2000, the rounding tolerance cannot hide a
      fractional part, and RoundMultiplier(n / d) is exactly the ceiling of n / d. */
  lemma RoundMultiplierOfRatio(n: int, d: int)
    requires 0 < d < 2000
    ensures RoundMultiplier(n as real / d as real) == CeilDiv(n, d)
  {
    var q, rem := n / d, n % d;
    RatioSplit(n, d);
    if rem == 0 {
      Round3OfInteger(q);
    } else {
      FractionBeyondTolerance(rem, d);
      CeilingBetween(Round3(n as real / d as real), q);
    }
  }

  lemma RatioSplit(n: int, d: int)
    requires 0 < d
    ensures n as real / d as real == (n / d) as real + (n % d) as real / d as real
  {
    var q, rem := n / d, n % d;
    assert n == q * d + rem;
    assert n as real == q as real * d as real + rem as real;
  }

  lemma FractionBeyondTolerance(rem: int, d: int)
    requires 0 < rem < d < 2000
    ensures Tolerance < rem as real / d as real < 1.0 - Tolerance
  {
    var frac := rem as real / d as real;
    assert frac * d as real == rem as real;
    FactorBelowBound(frac, d as real);
    assert (1.0 - frac) * d as real == (d - rem) as real;
    FactorBelowBound(1.0 - frac, d as real);
  }

  /** A factor that scales d < 2000 to at least 1 exceeds 1/2000. */
  lemma FactorBelowBound(a: real, d: real)
    requires 0.0 < d < 2000.0
    requires 1.0 <= a * d
    ensures Tolerance < a
  {
    if 0.0 < a {
      assert a * d < a * 2000.0;
    }
  }

  lemma CeilingBetween(y: real, q: int)
    requires q as real < y < q as real + 1.0
    ensures Ceiling(y) == q + 1
  {
  }

  /** Any raw value at least n / d gives a multiplier that covers n in steps of d. */
  lemma RoundMultiplierCovers(x: real, n: int, d: int)
    requires 0 < d < 2000
    requires n as real / d as real <= x
    ensures n <= RoundMultiplier(x) * d
  {
    RoundMultiplierMonotonic(n as real / d as real, x);
    RoundMultiplierOfRatio(n, d);
    MulMonotonic(CeilDiv(n, d), RoundMultiplier(x), d);
  }

  lemma MulMonotonic(a: int, b: int, d: nat)
    requires a <= b
    ensures a * d <= b * d
  {
  }

  /** The raw value GetRareMultiplier rounds: the ratio that makes the rare
      tier outweigh the very rare tier nine to one, and never below 1. */
  function RareTarget(rareCount: nat, veryRareCount: nat): (t: real)
    ensures 1.0 <= t
    ensures 0 < rareCount ==> (9 * veryRareCount) as real / rareCount as real <= t
    ensures t == 1.0 || (0 < rareCount && t == (9 * veryRareCount) as real / rareCount as real)
  {
    var againstVeryRare := if rareCount > 0 then (9 * veryRareCount) as real / rareCount as real else 1.0;
    Max(againstVeryRare, 1.0)
  }

  /** GetRareMultiplier. The C# code only counts the tiers, so the model takes the counts. */
  function GetRareMultiplier(rareCount: nat, veryRareCount: nat): (m: nat)
    ensures 1 <= m
    ensures rareCount == 0 ==> m == 1
  {
    RoundMultiplierOfInteger(1);
    RoundMultiplier(RareTarget(rareCount, veryRareCount))
  }

  /** The divisor the uncommon targets use when a common tier exists. */
  function CommonDivisor(commonCount: nat): (cd: nat)
    ensures cd == 1 || cd == 3
    ensures cd == 3 <==> 0 < commonCount
  {
    if commonCount > 0 then 3 else 1
  }

  /** The raw value GetUncommonMultiplier rounds: the largest of its three
      ratio targets and 1, where the targets are skipped for an empty uncommon tier. */
  function UncommonTarget(commonCount: nat, uncommonCount: nat, rareCount: nat, veryRareCount: nat): (t: real)
    ensures 1.0 <= t
    ensures var rareAmount := GetRareMultiplier(rareCount, veryRareCount) * rareCount;
            var amount := rareAmount + veryRareCount;
            var divided := CommonDivisor(commonCount) * uncommonCount;
            0 < uncommonCount ==>
              && (3 * amount) as real / uncommonCount as real <= t
              && (9 * amount) as real / divided as real <= t
              && (99 * veryRareCount - rareAmount) as real / divided as real <= t
    ensures var rareAmount := GetRareMultiplier(rareCount, veryRareCount) * rareCount;
            var amount := rareAmount + veryRareCount;
            var divided := CommonDivisor(commonCount) * uncommonCount;
            || t == 1.0
            || (0 < uncommonCount &&
                (|| t == (3 * amount) as real / uncommonCount as real
                 || t == (9 * amount) as real / divided as real
                 || t == (99 * veryRareCount - rareAmount) as real / divided as real))
  {
    var veryRareAmount := veryRareCount;
    var rareAmount := GetRareMultiplier(rareCount, veryRareCount) * rareCount;
    var commonDivisor := CommonDivisor(commonCount) as real;
    var againstRareAndVeryRare :=
      if uncommonCount > 0 then 3.0 * (rareAmount + veryRareAmount) as real / uncommonCount as real else 1.0;
    var againstRare :=
      if uncommonCount > 0 then (9.0 * (rareAmount + veryRareAmount) as real) / commonDivisor / uncommonCount as real else 1.0;
    var againstVeryRare :=
      if uncommonCount > 0 then (99.0 * veryRareAmount as real - rareAmount as real) / commonDivisor / uncommonCount as real else 1.0;
    if uncommonCount > 0 then
      DivideTwice(9 * (rareAmount + veryRareAmount), CommonDivisor(commonCount), uncommonCount);
      DivideTwice(99 * veryRareAmount - rareAmount, CommonDivisor(commonCount), uncommonCount);
      Max(Max(againstVeryRare, againstRareAndVeryRare), Max(againstRare, 1.0))
    else
      Max(Max(againstVeryRare, againstRareAndVeryRare), Max(againstRare, 1.0))
  }

  /** Dividing by a and then by b is dividing by a * b. */
  lemma DivideTwice(n: int, a: nat, b: nat)
    requires 0 < a && 0 < b
    ensures n as real / a as real / b as real == n as real / (a * b) as real
  {
    assert (a * b) as real == a as real * b as real;
  }

  /** GetUncommonMultiplier. */
  function GetUncommonMultiplier(commonCount: nat, uncommonCount: nat, rareCount: nat, veryRareCount: nat): (m: nat)
    ensures 1 <= m
    ensures uncommonCount == 0 ==> m == 1
  {
    RoundMultiplierOfInteger(1);
    RoundMultiplier(UncommonTarget(commonCount, uncommonCount, rareCount, veryRareCount))
  }

  /** The raw value GetCommonMultiplier rounds: the largest of its three ratio
      targets and 1, where the targets are skipped for an empty common tier. */
  function CommonTarget(commonCount: nat, uncommonCount: nat, rareCount: nat, veryRareCount: nat): (t: real)
    ensures 1.0 <= t
    ensures var rareAmount := GetRareMultiplier(rareCount, veryRareCount) * rareCount;
            var uncommonAmount := GetUncommonMultiplier(commonCount, uncommonCount, rareCount, veryRareCount) * uncommonCount;
            0 < commonCount ==>
              && (2 * uncommonAmount) as real / commonCount as real <= t
              && (9 * (rareAmount + veryRareCount) - uncommonAmount) as real / commonCount as real <= t
              && (99 * veryRareCount - rareAmount - uncommonAmount) as real / commonCount as real <= t
    ensures var rareAmount := GetRareMultiplier(rareCount, veryRareCount) * rareCount;
            var uncommonAmount := GetUncommonMultiplier(commonCount, uncommonCount, rareCount, veryRareCount) * uncommonCount;
            || t == 1.0
            || (0 < commonCount &&
                (|| t == (2 * uncommonAmount) as real / commonCount as real
                 || t == (9 * (rareAmount + veryRareCount) - uncommonAmount) as real / commonCount as real
                 || t == (99 * veryRareCount - rareAmount - uncommonAmount) as real / commonCount as real))
  {
    var veryRareAmount := veryRareCount;
    var rareAmount := GetRareMultiplier(rareCount, veryRareCount) * rareCount;
    var uncommonAmount := GetUncommonMultiplier(commonCount, uncommonCount, rareCount, veryRareCount) * uncommonCount;
    var againstUncommon :=
      if commonCount > 0 then 2.0 * uncommonAmount as real / commonCount as real else 1.0;
    var againstRare :=
      if commonCount > 0 then (9.0 * (rareAmount + veryRareAmount) as real - uncommonAmount as real) / commonCount as real else 1.0;
    var againstVeryRare :=
      if commonCount > 0 then (99.0 * veryRareAmount as real - rareAmount as real - uncommonAmount as real) / commonCount as real else 1.0;
    Max(Max(againstUncommon, againstRare), Max(againstVeryRare, 1.0))
  }

  /** GetCommonMultiplier. */
  function GetCommonMultiplier(commonCount: nat, uncommonCount: nat, rareCount: nat, veryRareCount: nat): (m: nat)
    ensures 1 <= m
    ensures commonCount == 0 ==> m == 1
  {
    RoundMultiplierOfInteger(1);
    RoundMultiplier(CommonTarget(commonCount, uncommonCount, rareCount, veryRareCount))
  }

  /** Duplicate: `quantity` copies of `source`, one after the other. */
  function Duplicate<T(!new)>(source: seq<T>, quantity: nat): (r: seq<T>)
    ensures |r| == quantity * |source|
    ensures forall i :: 0 <= i < |r| ==> r[i] == source[i % |source|]
    ensures forall x :: multiset(r)[x] == quantity * multiset(source)[x]
  {
    if quantity == 0 then []
    else
      var front := Duplicate(source, quantity - 1);
      assert multiset(front + source) == multiset(front) + multiset(source);
      assert forall i :: |front| <= i < |front| + |source| ==> i % |source| == i - |front| by {
        forall i | |front| <= i < |front| + |source|
          ensures i % |source| == i - |front|
        {
          ModOfShift(quantity - 1, |source|, i - |front|);
        }
      }
      front + source
  }

  /** (q * n + j) % n == j for a remainder j below n. */
  lemma ModOfShift(q: nat, n: nat, j: nat)
    requires j < n
    ensures (q * n + j) % n == j
  {
    var k := q * n + j;
    var q', j' := k / n, k % n;
    assert k == q' * n + j';
    var d := q - q';
    assert d * n == j' - j by {
      assert d * n == q * n - q' * n;
    }
    if d > 0 {
      MulMonotonic(1, d, n);
    } else if d < 0 {
      MulMonotonic(1, -d, n);
    }
  }

  /** `w` holds the very rare items once, in order, at its front; then the
      rare, the uncommon and the common tier, each as one block of as many
      back-to-back copies as that tier's multiplier says. */
  ghost predicate WeightedBy<T(!new)>(w: seq<T>, common: seq<T>, uncommon: seq<T>, rare: seq<T>, veryRare: seq<T>,
                                      rm: nat, um: nat, cm: nat)
  {
    var rareStart := |veryRare|;
    var uncommonStart := rareStart + rm * |rare|;
    var commonStart := uncommonStart + um * |uncommon|;
    && |w| == commonStart + cm * |common|
    && (forall x :: multiset(w)[x] ==
          multiset(veryRare)[x] + rm * multiset(rare)[x] + um * multiset(uncommon)[x] + cm * multiset(common)[x])
    && w[..rareStart] == veryRare
    && (forall i :: rareStart <= i < uncommonStart ==> w[i] == rare[(i - rareStart) % |rare|])
    && (forall i :: uncommonStart <= i < commonStart ==> w[i] == uncommon[(i - uncommonStart) % |uncommon|])
    && (forall i :: commonStart <= i < |w| ==> w[i] == common[(i - commonStart) % |common|])
    && (w == [] <==> common == [] && uncommon == [] && rare == [] && veryRare == [])
  }

  /** CreateWeighted: the very rare tier once, then the rare, uncommon and
      common tiers each repeated by its multiplier. */
  function CreateWeighted<T(!new)>(common: seq<T>, uncommon: seq<T>, rare: seq<T>, veryRare: seq<T>): (w: seq<T>)
    ensures WeightedBy(w, common, uncommon, rare, veryRare,
                       GetRareMultiplier(|rare|, |veryRare|),
                       GetUncommonMultiplier(|common|, |uncommon|, |rare|, |veryRare|),
                       GetCommonMultiplier(|common|, |uncommon|, |rare|, |veryRare|))
  {
    var rareMultiplier := GetRareMultiplier(|rare|, |veryRare|);
    var uncommonMultiplier := GetUncommonMultiplier(|common|, |uncommon|, |rare|, |veryRare|);
    var commonMultiplier := GetCommonMultiplier(|common|, |uncommon|, |rare|, |veryRare|);
    TiersLaidOut(common, uncommon, rare, veryRare, rareMultiplier, uncommonMultiplier, commonMultiplier);
    veryRare + Duplicate(rare, rareMultiplier) + Duplicate(uncommon, uncommonMultiplier) + Duplicate(common, commonMultiplier)
  }

  /** The counting facts behind CreateWeighted, for any multipliers of at least one. */
  lemma TiersLaidOut<T(!new)>(common: seq<T>, uncommon: seq<T>, rare: seq<T>, veryRare: seq<T>, rm: nat, um: nat, cm: nat)
    requires 1 <= rm && 1 <= um && 1 <= cm
    ensures WeightedBy(veryRare + Duplicate(rare, rm) + Duplicate(uncommon, um) + Duplicate(common, cm),
                       common, uncommon, rare, veryRare, rm, um, cm)
  {
    TiersCounted(common, uncommon, rare, veryRare, rm, um, cm);
    TiersInOrder(common, uncommon, rare, veryRare, rm, um, cm);
  }

  /** The order facts of the concatenation: each tier's copies form one block. */
  lemma TiersInOrder<T(!new)>(common: seq<T>, uncommon: seq<T>, rare: seq<T>, veryRare: seq<T>, rm: nat, um: nat, cm: nat)
    ensures var w := veryRare + Duplicate(rare, rm) + Duplicate(uncommon, um) + Duplicate(common, cm);
            var rareStart := |veryRare|;
            var uncommonStart := rareStart + rm * |rare|;
            var commonStart := uncommonStart + um * |uncommon|;
            && |w| == commonStart + cm * |common|
            && (forall i :: rareStart <= i < uncommonStart ==> w[i] == rare[(i - rareStart) % |rare|])
            && (forall i :: uncommonStart <= i < commonStart ==> w[i] == uncommon[(i - uncommonStart) % |uncommon|])
            && (forall i :: commonStart <= i < |w| ==> w[i] == common[(i - commonStart) % |common|])
  {
    RareBlock(common, uncommon, rare, veryRare, rm, um, cm);
    UncommonBlock(common, uncommon, rare, veryRare, rm, um, cm);
    CommonBlock(common, uncommon, rare, veryRare, rm, um, cm);
  }

  lemma RareBlock<T(!new)>(common: seq<T>, uncommon: seq<T>, rare: seq<T>, veryRare: seq<T>, rm: nat, um: nat, cm: nat)
    ensures var w := veryRare + Duplicate(rare, rm) + Duplicate(uncommon, um) + Duplicate(common, cm);
            forall i :: |veryRare| <= i < |veryRare| + rm * |rare| ==> w[i] == rare[(i - |veryRare|) % |rare|]
  {
    var rw, uw, cw := Duplicate(rare, rm), Duplicate(uncommon, um), Duplicate(common, cm);
    var w := veryRare + rw + uw + cw;
    assert w == veryRare + rw + (uw + cw);
    BlockOf(w, veryRare, rare, rm, uw + cw);
  }

  lemma UncommonBlock<T(!new)>(common: seq<T>, uncommon: seq<T>, rare: seq<T>, veryRare: seq<T>, rm: nat, um: nat, cm: nat)
    ensures var w := veryRare + Duplicate(rare, rm) + Duplicate(uncommon, um) + Duplicate(common, cm);
            var start := |veryRare| + rm * |rare|;
            forall i :: start <= i < start + um * |uncommon| ==> w[i] == uncommon[(i - start) % |uncommon|]
  {
    var rw, uw, cw := Duplicate(rare, rm), Duplicate(uncommon, um), Duplicate(common, cm);
    BlockOf(veryRare + rw + uw + cw, veryRare + rw, uncommon, um, cw);
  }

  lemma CommonBlock<T(!new)>(common: seq<T>, uncommon: seq<T>, rare: seq<T>, veryRare: seq<T>, rm: nat, um: nat, cm: nat)
    ensures var w := veryRare + Duplicate(rare, rm) + Duplicate(uncommon, um) + Duplicate(common, cm);
            var start := |veryRare| + rm * |rare| + um * |uncommon|;
            && |w| == start + cm * |common|
            && forall i :: start <= i < |w| ==> w[i] == common[(i - start) % |common|]
  {
    var rw, uw, cw := Duplicate(rare, rm), Duplicate(uncommon, um), Duplicate(common, cm);
    var w := veryRare + rw + uw + cw;
    assert w == veryRare + rw + uw + cw + [];
    BlockOf(w, veryRare + rw + uw, common, cm, []);
  }

  /** Between `front` and `back`, the block of copies holds `source` cyclically. */
  lemma BlockOf<T(!new)>(w: seq<T>, front: seq<T>, source: seq<T>, quantity: nat, back: seq<T>)
    requires w == front + Duplicate(source, quantity) + back
    ensures forall i :: |front| <= i < |front| + quantity * |source| ==>
              w[i] == source[(i - |front|) % |source|]
  {
    var d := Duplicate(source, quantity);
    assert forall i :: |front| <= i < |front| + |d| ==> w[i] == d[i - |front|];
  }

  /** The counting facts of the concatenation. */
  lemma TiersCounted<T(!new)>(common: seq<T>, uncommon: seq<T>, rare: seq<T>, veryRare: seq<T>, rm: nat, um: nat, cm: nat)
    requires 1 <= rm && 1 <= um && 1 <= cm
    ensures var w := veryRare + Duplicate(rare, rm) + Duplicate(uncommon, um) + Duplicate(common, cm);
            && (forall x :: multiset(w)[x] ==
                  multiset(veryRare)[x] + rm * multiset(rare)[x] + um * multiset(uncommon)[x] + cm * multiset(common)[x])
            && w[..|veryRare|] == veryRare
            && (w == [] <==> common == [] && uncommon == [] && rare == [] && veryRare == [])
  {
    var rw, uw, cw := Duplicate(rare, rm), Duplicate(uncommon, um), Duplicate(common, cm);
    var w := veryRare + rw + uw + cw;
    assert multiset(w) == multiset(veryRare) + multiset(rw) + multiset(uw) + multiset(cw);
    assert w == veryRare + (rw + uw + cw);
    assert |rw| == 0 <==> rare == [] by { ProductZero(rm, |rare|); }
    assert |uw| == 0 <==> uncommon == [] by { ProductZero(um, |uncommon|); }
    assert |cw| == 0 <==> common == [] by { ProductZero(cm, |common|); }
  }

  lemma ProductZero(a: nat, b: nat)
    requires 1 <= a
    ensures a * b == 0 <==> b == 0
  {
    if b > 0 {
      assert a * b >= b;
    }
  }

  /** An integer target is kept exactly: RoundMultiplier(q) == q. */
  lemma RoundMultiplierOfInteger(q: int)
    ensures RoundMultiplier(q as real) == q
  {
    Round3OfInteger(q);
  }

  /** With no tier counted, every multiplier is 1. */
  lemma MultipliersOfEmptyTiers()
    ensures GetRareMultiplier(0, 0) == 1
    ensures GetUncommonMultiplier(0, 0, 0, 0) == 1
    ensures GetCommonMultiplier(0, 0, 0, 0) == 1
  {
    RoundMultiplierOfInteger(1);
  }

  /** Against the very rare tier: for a non-empty rare tier of fewer than 2000
      items the rare multiplier is exactly max(1, ceil(9 |veryRare| / |rare|)),
      so the rare copies outweigh the very rare items nine to one and make up
      at least 90% of the two tiers. */
  lemma {:induction false} RareMultiplierRatio(rareCount: nat, veryRareCount: nat)
    requires 0 < rareCount < 2000
    ensures var rm := GetRareMultiplier(rareCount, veryRareCount);
            var c := CeilDiv(9 * veryRareCount, rareCount);
            && rm == (if 1 <= c then c else 1)
            && 9 * veryRareCount <= rm * rareCount
            && 9 * (rm * rareCount + veryRareCount) <= 10 * (rm * rareCount)
  {
    var n := 9 * veryRareCount;
    var c := CeilDiv(n, rareCount);
    var ratio := n as real / rareCount as real;
    if 1.0 <= ratio {
      RoundMultiplierOfRatio(n, rareCount);
      assert 1 <= c;
    } else {
      RoundMultiplierOfInteger(1);
      assert c <= 1 by {
        assert n < rareCount by {
          if rareCount <= n {
            RealDivAtLeastOne(n, rareCount);
          }
        }
      }
    }
    MulMonotonic(c, GetRareMultiplier(rareCount, veryRareCount), rareCount);
  }

  lemma RealDivAtLeastOne(n: int, d: int)
    requires 0 < d <= n
    ensures 1.0 <= n as real / d as real
  {
  }

  /** Against the rarer tiers: for a non-empty uncommon tier whose size times
      the common divisor stays below 2000 (at most 666 items beside a common
      tier, fewer than 2000 without one), the uncommon copies reach three
      times the rare and very rare weight, nine times it divided by the common
      divisor, and 99 times the very rare items less the rare weight, divided
      likewise. */
  lemma {:induction false} UncommonMultiplierRatio(commonCount: nat, uncommonCount: nat, rareCount: nat, veryRareCount: nat)
    requires 0 < uncommonCount && CommonDivisor(commonCount) * uncommonCount < 2000
    ensures var rareAmount := GetRareMultiplier(rareCount, veryRareCount) * rareCount;
            var amount := rareAmount + veryRareCount;
            var uncommonAmount := GetUncommonMultiplier(commonCount, uncommonCount, rareCount, veryRareCount) * uncommonCount;
            var cd := CommonDivisor(commonCount);
            && 3 * amount <= uncommonAmount
            && 9 * amount <= cd * uncommonAmount
            && 99 * veryRareCount - rareAmount <= cd * uncommonAmount
  {
    var rareAmount := GetRareMultiplier(rareCount, veryRareCount) * rareCount;
    var amount := rareAmount + veryRareCount;
    var cd := CommonDivisor(commonCount);
    var um := GetUncommonMultiplier(commonCount, uncommonCount, rareCount, veryRareCount);
    var t := UncommonTarget(commonCount, uncommonCount, rareCount, veryRareCount);
    RoundMultiplierCovers(t, 3 * amount, uncommonCount);
    var d := cd * uncommonCount;
    RoundMultiplierCovers(t, 9 * amount, d);
    RoundMultiplierCovers(t, 99 * veryRareCount - rareAmount, d);
    MulRearrange(um, cd, uncommonCount);
  }

  lemma MulRearrange(a: int, b: int, c: int)
    ensures a * (b * c) == b * (a * c)
  {
  }

  /** Without a common tier the uncommon copies of a tier of fewer than 2000
      items outweigh the rare and very rare weight nine to one: at least 90%
      of everything. */
  lemma UncommonShareWithoutCommon(uncommonCount: nat, rareCount: nat, veryRareCount: nat)
    requires 0 < uncommonCount < 2000
    ensures var rareAmount := GetRareMultiplier(rareCount, veryRareCount) * rareCount;
            var uncommonAmount := GetUncommonMultiplier(0, uncommonCount, rareCount, veryRareCount) * uncommonCount;
            9 * (uncommonAmount + rareAmount + veryRareCount) <= 10 * uncommonAmount
  {
    UncommonMultiplierRatio(0, uncommonCount, rareCount, veryRareCount);
  }

  /** Against the other tiers: for a non-empty common tier of fewer than 2000
      items, the common copies are at least twice the uncommon weight (2/3 of
      the two tiers), common and uncommon together reach nine times the rare
      and very rare weight (90% of all), and common, uncommon and rare
      together reach 99 times the very rare items (99% of all). */
  lemma {:induction false} CommonMultiplierRatio(commonCount: nat, uncommonCount: nat, rareCount: nat, veryRareCount: nat)
    requires 0 < commonCount < 2000
    ensures var rareAmount := GetRareMultiplier(rareCount, veryRareCount) * rareCount;
            var uncommonAmount := GetUncommonMultiplier(commonCount, uncommonCount, rareCount, veryRareCount) * uncommonCount;
            var commonAmount := GetCommonMultiplier(commonCount, uncommonCount, rareCount, veryRareCount) * commonCount;
            && 2 * uncommonAmount <= commonAmount
            && 9 * (rareAmount + veryRareCount) <= commonAmount + uncommonAmount
            && 99 * veryRareCount <= commonAmount + uncommonAmount + rareAmount
  {
    var rareAmount := GetRareMultiplier(rareCount, veryRareCount) * rareCount;
    var uncommonAmount := GetUncommonMultiplier(commonCount, uncommonCount, rareCount, veryRareCount) * uncommonCount;
    var t := CommonTarget(commonCount, uncommonCount, rareCount, veryRareCount);
    RoundMultiplierCovers(t, 2 * uncommonAmount, commonCount);
    RoundMultiplierCovers(t, 9 * (rareAmount + veryRareCount) - uncommonAmount, commonCount);
    RoundMultiplierCovers(t, 99 * veryRareCount - rareAmount - uncommonAmount, commonCount);
  }

  /** The uncommon multiplier exactly: for a non-empty uncommon tier whose size
      times the common divisor stays below 2000 it is the largest of the three
      ceilings its targets round to and 1, so the least multiplier that meets
      all three. */
  lemma {:induction false} UncommonMultiplierExact(commonCount: nat, uncommonCount: nat, rareCount: nat, veryRareCount: nat)
    requires 0 < uncommonCount && CommonDivisor(commonCount) * uncommonCount < 2000
    ensures var rareAmount := GetRareMultiplier(rareCount, veryRareCount) * rareCount;
            var amount := rareAmount + veryRareCount;
            var d := CommonDivisor(commonCount) * uncommonCount;
            var um := GetUncommonMultiplier(commonCount, uncommonCount, rareCount, veryRareCount);
            var a, b, c := CeilDiv(3 * amount, uncommonCount), CeilDiv(9 * amount, d), CeilDiv(99 * veryRareCount - rareAmount, d);
            && 1 <= um && a <= um && b <= um && c <= um
            && (um == 1 || um == a || um == b || um == c)
  {
    var rareAmount := GetRareMultiplier(rareCount, veryRareCount) * rareCount;
    var amount := rareAmount + veryRareCount;
    var cd := CommonDivisor(commonCount);
    var d := cd * uncommonCount;
    var t := UncommonTarget(commonCount, uncommonCount, rareCount, veryRareCount);
    MaxOfFour(t, 3 * amount, uncommonCount, 9 * amount, d, 99 * veryRareCount - rareAmount, d);
  }

  /** A target that is the largest of three ratios n/d below 2000 and 1 rounds to
      the largest of their ceilings and 1. */
  lemma MaxOfFour(t: real, n1: int, d1: int, n2: int, d2: int, n3: int, d3: int)
    requires 0 < d1 < 2000 && 0 < d2 < 2000 && 0 < d3 < 2000
    requires 1.0 <= t && n1 as real / d1 as real <= t && n2 as real / d2 as real <= t && n3 as real / d3 as real <= t
    requires t == 1.0 || t == n1 as real / d1 as real || t == n2 as real / d2 as real || t == n3 as real / d3 as real
    ensures var m := RoundMultiplier(t);
            && 1 <= m && CeilDiv(n1, d1) <= m && CeilDiv(n2, d2) <= m && CeilDiv(n3, d3) <= m
            && (m == 1 || m == CeilDiv(n1, d1) || m == CeilDiv(n2, d2) || m == CeilDiv(n3, d3))
  {
    RoundMultiplierOfInteger(1);
    RoundMultiplierCovered(t, n1, d1);
    RoundMultiplierCovered(t, n2, d2);
    RoundMultiplierCovered(t, n3, d3);
  }

  /** A ratio n/d below t rounds to a ceiling no greater than t's multiplier. */
  lemma RoundMultiplierCovered(t: real, n: int, d: int)
    requires 0 < d < 2000
    requires n as real / d as real <= t
    ensures CeilDiv(n, d) <= RoundMultiplier(t)
    ensures t == n as real / d as real ==> RoundMultiplier(t) == CeilDiv(n, d)
  {
    RoundMultiplierOfRatio(n, d);
    RoundMultiplierMonotonic(n as real / d as real, t);
  }

  /** The common multiplier exactly: for a non-empty common tier of fewer than
      2000 items it is the largest of the three ceilings its targets round to
      and 1, so the least multiplier that meets all three. */
  lemma {:induction false} CommonMultiplierExact(commonCount: nat, uncommonCount: nat, rareCount: nat, veryRareCount: nat)
    requires 0 < commonCount < 2000
    ensures var rareAmount := GetRareMultiplier(rareCount, veryRareCount) * rareCount;
            var uncommonAmount := GetUncommonMultiplier(commonCount, uncommonCount, rareCount, veryRareCount) * uncommonCount;
            var cm := GetCommonMultiplier(commonCount, uncommonCount, rareCount, veryRareCount);
            var a := CeilDiv(2 * uncommonAmount, commonCount);
            var b := CeilDiv(9 * (rareAmount + veryRareCount) - uncommonAmount, commonCount);
            var c := CeilDiv(99 * veryRareCount - rareAmount - uncommonAmount, commonCount);
            && 1 <= cm && a <= cm && b <= cm && c <= cm
            && (cm == 1 || cm == a || cm == b || cm == c)
  {
    var rareAmount := GetRareMultiplier(rareCount, veryRareCount) * rareCount;
    var uncommonAmount := GetUncommonMultiplier(commonCount, uncommonCount, rareCount, veryRareCount) * uncommonCount;
    var t := CommonTarget(commonCount, uncommonCount, rareCount, veryRareCount);
    MaxOfFour(t, 2 * uncommonAmount, commonCount, 9 * (rareAmount + veryRareCount) - uncommonAmount, commonCount,
              99 * veryRareCount - rareAmount - uncommonAmount, commonCount);
  }

  /** An empty tier gets multiplier 1, whatever the other tiers hold. */
  lemma MultipliersOfEmptyTier(commonCount: nat, uncommonCount: nat, rareCount: nat, veryRareCount: nat)
    ensures GetRareMultiplier(0, veryRareCount) == 1
    ensures GetUncommonMultiplier(commonCount, 0, rareCount, veryRareCount) == 1
    ensures GetCommonMultiplier(0, uncommonCount, rareCount, veryRareCount) == 1
  {
    RoundMultiplierOfInteger(1);
  }

  /** The rounding tolerance is real: with 2002 rare and 445 very rare items
      the exact ratio 4005 / 2002 = 2.0004995... rounds to 2.000, the rare
      multiplier is 2, and the rare copies (4004) fall short of nine times the
      very rare items (4005). RareMultiplierRatio's bound on the tier size is needed. */
  lemma RareMultiplierBeyondTolerance()
    ensures GetRareMultiplier(2002, 445) == 2
    ensures GetRareMultiplier(2002, 445) * 2002 < 9 * 445
  {
    var x := 4005.0 / 2002.0;
    assert RareTarget(2002, 445) == x;
    assert (x * 1000.0).Floor == 2000;
    assert Round3(x) == 2.0;
  }

  /** One item in each tier: 1 very rare, 9 rare, 30 uncommon and 60 common, 100 in all. */
  lemma OneOfEachTier<T(!new)>(c: T, u: T, r: T, v: T)
    requires c != u && c != r && c != v && u != r && u != v && r != v
    ensures var w := CreateWeighted([c], [u], [r], [v]);
            && multiset(w)[v] == 1 && multiset(w)[r] == 9 && multiset(w)[u] == 30 && multiset(w)[c] == 60
            && |w| == 100
  {
    OneOfEachTierMultipliers();
  }

  /** With one item in each tier the multipliers are 9, 30 and 60. */
  lemma OneOfEachTierMultipliers()
    ensures GetRareMultiplier(1, 1) == 9
    ensures GetUncommonMultiplier(1, 1, 1, 1) == 30
    ensures GetCommonMultiplier(1, 1, 1, 1) == 60
  {
    RareMultiplierRatio(1, 1);
    assert CeilDiv(9, 1) == 9;
    UncommonMultiplierExact(1, 1, 1, 1);
    assert CeilDiv(30, 1) == 30 && CeilDiv(90, 3) == 30;
    CommonMultiplierExact(1, 1, 1, 1);
    assert CeilDiv(60, 1) == 60;
  }

  /** One item in each tier, position by position: index 0 holds the very rare
      item, 1..9 the rare, 10..39 the uncommon and 40..99 the common item. */
  lemma OneOfEachTierLayout<T(!new)>(c: T, u: T, r: T, v: T)
    ensures var w := CreateWeighted([c], [u], [r], [v]);
            && |w| == 100
            && forall i :: 0 <= i < 100 ==>
                 w[i] == (if i == 0 then v else if i < 10 then r else if i < 40 then u else c)
  {
    OneOfEachTierMultipliers();
    var rw, uw, cw := Duplicate([r], 9), Duplicate([u], 30), Duplicate([c], 60);
    DuplicateOne(r, 9);
    DuplicateOne(u, 30);
    DuplicateOne(c, 60);
    var w := CreateWeighted([c], [u], [r], [v]);
    assert w == [v] + rw + uw + cw;
  }

  /** Copies of a one-item list hold that item at every position. */
  lemma {:induction false} DuplicateOne<T(!new)>(x: T, k: nat)
    ensures var d := Duplicate([x], k);
            |d| == k && forall i :: 0 <= i < k ==> d[i] == x
  {
    if k > 0 {
      DuplicateOne(x, k - 1);
    }
  }

  /** Common tier left out: 1 very rare, 9 rare and 90 uncommon, 100 in all. */
  lemma OneOfEachWithoutCommon<T(!new)>(u: T, r: T, v: T)
    requires u != r && u != v && r != v
    ensures var w := CreateWeighted([], [u], [r], [v]);
            && multiset(w)[v] == 1 && multiset(w)[r] == 9 && multiset(w)[u] == 90
            && |w| == 100
  {
    WithoutCommonMultipliers();
  }

  /** Without a common tier the multipliers are 9, 90 and 1. */
  lemma WithoutCommonMultipliers()
    ensures GetRareMultiplier(1, 1) == 9
    ensures GetUncommonMultiplier(0, 1, 1, 1) == 90
    ensures GetCommonMultiplier(0, 1, 1, 1) == 1
  {
    RareMultiplierRatio(1, 1);
    assert CeilDiv(9, 1) == 9;
    UncommonMultiplierExact(0, 1, 1, 1);
    assert CeilDiv(30, 1) == 30 && CeilDiv(90, 1) == 90;
    MultipliersOfEmptyTier(0, 1, 1, 1);
  }

  /** Common tier left out, position by position: index 0 holds the very rare
      item, 1..9 the rare and 10..99 the uncommon item. */
  lemma OneOfEachWithoutCommonLayout<T(!new)>(u: T, r: T, v: T)
    ensures var w := CreateWeighted([], [u], [r], [v]);
            && |w| == 100
            && forall i :: 0 <= i < 100 ==> w[i] == (if i == 0 then v else if i < 10 then r else u)
  {
    WithoutCommonMultipliers();
    var rw, uw := Duplicate([r], 9), Duplicate([u], 90);
    DuplicateOne(r, 9);
    DuplicateOne(u, 90);
    var none: seq<T> := [];
    var w := CreateWeighted(none, [u], [r], [v]);
    assert Duplicate(none, 1) == [];
    assert w == [v] + rw + uw;
  }
}
