/**
 * Exact decimal money. A value is `units / 10^places`; every result below is a whole number
 * of minor units at the requested scale, so nothing is lost to representation.
 */
module Money {
  import opened Numbers
  import opened Options

  datatype Decimal = Decimal(units: int, places: nat)

  datatype RangeError = RangeError

  /** `toDecimalPlaces(scale, ROUND_HALF_UP)`, as a number of units at that scale. */
  function RoundHalfUp(x: Decimal, scale: nat): int {
    if x.places <= scale then x.units * Pow10(scale - x.places)
    else
      var p := Pow10(x.places - scale);
      var r := (2 * Abs(x.units) + p) / (2 * p);
      if x.units < 0 then -r else r
  }

  /** `r` units at `scale` are a nearest whole number of them to `x`, and on a tie the one farther from zero. */
  ghost predicate IsNearest(x: Decimal, scale: nat, r: int) {
    var exact, found := x.units * Pow10(scale), r * Pow10(x.places);
    && 2 * Abs(found - exact) <= Pow10(x.places)
    && (2 * Abs(found - exact) == Pow10(x.places) ==> (found < exact <==> x.units < 0))
  }

  /** Division toward zero, `ROUND_DOWN`. */
  function TruncDiv(a: int, b: int): int
    requires b != 0
  {
    var q := Abs(a) / Abs(b);
    if (a < 0) == (b < 0) then q else -q
  }

  /** `q` times the divisor misses `n` by less than the divisor, on the side of zero. */
  ghost predicate IsTruncated(n: int, d: int, q: int) {
    if n >= 0 then 0 <= n - q * d < Abs(d) else 0 <= q * d - n < Abs(d)
  }

  function Sum(s: seq<int>): int {
    if s == [] then 0 else Sum(s[..|s| - 1]) + s[|s| - 1]
  }

  /** One more unit for each of the first `k` entries. */
  function AddLeading(s: seq<int>, k: int): seq<int> {
    seq(|s|, i requires 0 <= i < |s| => s[i] + if i < k then 1 else 0)
  }

  /** The distribution loop: top the shares up to `total`, one unit each from the front. */
  function ToppedUp(shares: seq<int>, total: int): seq<int> {
    AddLeading(shares, Max(0, total - Sum(shares)))
  }

  function EqualShares(total: int, parts: nat): seq<int>
    requires parts >= 1
  {
    seq(parts, i => TruncDiv(total, parts))
  }

  function Allocated(total: int, parts: nat): seq<int>
    requires parts >= 1
  {
    ToppedUp(EqualShares(total, parts), total)
  }

  function WeightedShares(total: int, weights: seq<int>): seq<int>
    requires Sum(weights) != 0
  {
    seq(|weights|, i requires 0 <= i < |weights| => TruncDiv(total * weights[i], Sum(weights)))
  }

  function AllocatedByWeights(total: int, weights: seq<int>): seq<int>
    requires weights != []
  {
    if Sum(weights) == 0 then Allocated(total, |weights|)
    else ToppedUp(WeightedShares(total, weights), total)
  }

  // ---- The loops ------------------------------------------------------------

  method Allocate(value: Decimal, parts: int, scale: nat) returns (result: Result<seq<int>, RangeError>)
    ensures parts < 1 ==> result == Err(RangeError)
    ensures parts >= 1 ==> exists total :: IsNearest(value, scale, total) && result == Ok(Allocated(total, parts))
    ensures parts >= 1 ==> result == Ok(Allocated(RoundHalfUp(value, scale), parts))
  {
    if parts < 1 {
      return Err(RangeError);
    }
    var total := RoundHalfUp(value, scale);
    RoundingIsNearest(value, scale, total);
    var base := TruncDiv(total, parts);
    var shares := new int[parts](_ => base);
    assert shares[..] == EqualShares(total, parts);
    SumOfEqual(total, parts);
    EqualShortfall(total, parts);
    Distribute(shares, total, base * parts);
    result := Ok(shares[..]);
  }

  /** Weights are given at a common scale, which leaves their ratios as they are. */
  method AllocateByWeights(value: Decimal, weights: seq<int>, scale: nat) returns (result: Result<seq<int>, RangeError>)
    ensures weights == [] ==> result == Err(RangeError)
    ensures weights != [] ==>
              exists total :: IsNearest(value, scale, total) && result == Ok(AllocatedByWeights(total, weights))
  {
    RoundingIsNearest(value, scale, RoundHalfUp(value, scale));
    var totalWeight := SumOf(weights);
    if totalWeight == 0 {
      result := Allocate(value, |weights|, scale);
      return;
    }
    var total := RoundHalfUp(value, scale);
    var shares := new int[|weights|](i requires 0 <= i < |weights| => TruncDiv(total * weights[i], totalWeight));
    assert shares[..] == WeightedShares(total, weights);
    var handedOut := SumOf(shares[..]);
    WeightedShortfall(total, weights);
    Distribute(shares, total, handedOut);
    result := Ok(shares[..]);
  }

  method SumOf(s: seq<int>) returns (sum: int)
    ensures sum == Sum(s)
  {
    sum := 0;
    for i := 0 to |s|
      invariant sum == Sum(s[..i])
    {
      assert s[..i + 1][..i] == s[..i];
      sum := sum + s[i];
    }
    assert s[..|s|] == s;
  }

  lemma NextIndex(given: nat, n: nat)
    requires given + 1 < n
    ensures (given + 1) % n == given + 1
  {
  }

  method Distribute(shares: array<int>, total: int, handedOut: int)
    requires shares.Length > 0 && handedOut == Sum(shares[..]) && total - handedOut < shares.Length
    modifies shares
    ensures shares[..] == ToppedUp(old(shares[..]), total)
  {
    var remainder, index := total - handedOut, 0;
    ghost var given := 0;
    while remainder > 0
      invariant 0 <= given <= Max(0, total - handedOut)
      invariant remainder == total - handedOut - given
      invariant index == given
      invariant forall i | 0 <= i < shares.Length :: shares[i] == old(shares[i]) + if i < given then 1 else 0
    {
      NextIndex(given, shares.Length);
      shares[index] := shares[index] + 1;
      remainder := remainder - 1;
      index := (index + 1) % shares.Length;
      given := given + 1;
    }
  }

  // ---- Rounding ---------------------------------------------------------------

  lemma DivisionBounds(n: int, d: int)
    requires d > 0
    ensures n / d * d <= n < n / d * d + d
    ensures n >= 0 ==> n / d >= 0
  {
  }

  lemma {:induction false} Pow10Adds(a: nat, b: nat)
    ensures Pow10(a + b) == Pow10(a) * Pow10(b)
  {
    if a > 0 {
      Pow10Adds(a - 1, b);
      Product3(10, Pow10(a - 1), Pow10(b));
    }
  }

  lemma Product3(a: int, b: int, c: int)
    ensures a * (b * c) == a * b * c
  {
  }

  /** Rounding yields the nearest number of units, a tie going away from zero, and there is only one such. */
  lemma RoundingIsNearest(x: Decimal, scale: nat, r: int)
    ensures IsNearest(x, scale, r) <==> r == RoundHalfUp(x, scale)
  {
    var q := RoundHalfUp(x, scale);
    if x.places <= scale {
      Pow10Adds(scale - x.places, x.places);
      Product3(x.units, Pow10(scale - x.places), Pow10(x.places));
    } else {
      RoundedIsNear(x, scale);
    }
    assert IsNearest(x, scale, q);
    MultiplesAreApart(r, q, Pow10(x.places));
  }

  /** The error of rounding away the last places, in units of the amount itself. */
  lemma RoundingError(x: Decimal, scale: nat)
    requires x.places > scale
    ensures var p, gap := Pow10(x.places - scale), RoundHalfUp(x, scale) * Pow10(x.places - scale) - x.units;
            && -(p as int) <= 2 * gap <= p
            && (2 * gap == p ==> x.units >= 0) && (-2 * gap == p ==> x.units < 0)
  {
    var p, q := Pow10(x.places - scale), RoundHalfUp(x, scale);
    var r := (2 * Abs(x.units) + p) / (2 * p);
    HalfUpBounds(Abs(x.units), p);
    TwiceProduct(r, p);
    assert q * p == if x.units < 0 then -(r * p) else r * p;
  }

  lemma RoundedIsNear(x: Decimal, scale: nat)
    requires x.places > scale
    ensures IsNearest(x, scale, RoundHalfUp(x, scale))
  {
    var p, q, t := Pow10(x.places - scale), RoundHalfUp(x, scale), Pow10(scale);
    RoundingError(x, scale);
    Pow10Adds(x.places - scale, scale);
    Product3(q, p, t);
    DifferenceTimes(q * p, x.units, t);
    Scaled(q * p - x.units, p, t);
  }

  /** At a finer scale an error is in the same proportion to half a unit, and of the same sign. */
  lemma Scaled(gap: int, p: nat, t: nat)
    requires t >= 1 && 2 * Abs(gap) <= p
    ensures 2 * Abs(gap * t) <= p * t
    ensures 2 * Abs(gap * t) == p * t ==> 2 * Abs(gap) == p
    ensures gap * t < 0 <==> gap < 0
  {
    var a := Abs(gap);
    AbsProduct(gap, t);
    SameSign(gap, t);
    DifferenceTimes(p, 2 * a, t);
    SameSign(p - 2 * a, t);
    TwiceProduct(t, a);
    assert 2 * a * t == 2 * (a * t);
  }

  lemma MultiplesAreApart(a: int, b: int, p: nat)
    requires p >= 1
    ensures a == b || a * p >= b * p + p || b * p >= a * p + p
  {
    if a > b {
      Distributes(p, b, a - b);
      assert (a - b) * p >= p;
    } else if b > a {
      Distributes(p, a, b - a);
      assert (b - a) * p >= p;
    }
  }

  lemma HalfUpBounds(u: nat, p: nat)
    requires p > 0
    ensures (2 * u + p) / (2 * p) >= 0
    ensures 2 * ((2 * u + p) / (2 * p) * p) - p <= 2 * u < 2 * ((2 * u + p) / (2 * p) * p) + p
  {
    DivisionBounds(2 * u + p, 2 * p);
    TwiceProduct((2 * u + p) / (2 * p), p);
  }

  lemma TwiceProduct(r: int, p: int)
    ensures r * (2 * p) == 2 * (r * p) && (-r) * p == -(r * p)
  {
  }

  /** `abs().round(scale)`: the rounded amount without its sign. */
  function Rounded(x: Decimal, scale: nat): nat {
    Abs(RoundHalfUp(Decimal(Abs(x.units), x.places), scale))
  }

  function Signed(negative: bool, n: nat): int {
    if negative then 0 - n else n
  }

  lemma SignedRounding(x: Decimal, scale: nat)
    ensures RoundHalfUp(x, scale) == Signed(x.units < 0, Rounded(x, scale))
  {
    if x.places <= scale {
      SignedProduct(x.units, Pow10(scale - x.places));
    } else {
      HalfUpBounds(Abs(x.units), Pow10(x.places - scale));
    }
  }

  lemma SignedProduct(u: int, p: nat)
    ensures u * p == Signed(u < 0, Abs(Abs(u) * p))
  {
    if u < 0 {
      TwiceProduct(-u, p);
      SignOfProduct(-u, p);
    } else {
      SignOfProduct(u, p);
    }
  }

  /** With the sign put back it is the nearest number of units, a tie going away from zero. */
  lemma RoundedIsNearest(x: Decimal, scale: nat)
    ensures IsNearest(x, scale, Signed(x.units < 0, Rounded(x, scale)))
  {
    SignedRounding(x, scale);
    RoundingIsNearest(x, scale, RoundHalfUp(x, scale));
  }

  lemma EnoughPlacesAreExact(x: Decimal, scale: nat)
    requires x.places <= scale
    ensures Signed(x.units < 0, Rounded(x, scale)) * Pow10(x.places) == x.units * Pow10(scale)
  {
    SignedRounding(x, scale);
    Pow10Adds(scale - x.places, x.places);
    Product3(x.units, Pow10(scale - x.places), Pow10(x.places));
  }

  lemma RoundAlike(x: Decimal, y: Decimal, scale: nat)
    ensures RoundHalfUp(x, scale) == RoundHalfUp(y, scale) <==> exists r :: IsNearest(x, scale, r) && IsNearest(y, scale, r)
  {
    var r := RoundHalfUp(x, scale);
    RoundingIsNearest(x, scale, r);
    RoundingIsNearest(y, scale, r);
    if q :| IsNearest(x, scale, q) && IsNearest(y, scale, q) {
      RoundingIsNearest(x, scale, q);
    }
  }

  /** Of one sign, two amounts round alike exactly when some number is nearest to both. */
  lemma SameRounded(x: Decimal, y: Decimal, scale: nat)
    requires x.units < 0 <==> y.units < 0
    ensures Rounded(x, scale) == Rounded(y, scale) <==> exists r :: IsNearest(x, scale, r) && IsNearest(y, scale, r)
  {
    SignedRounding(x, scale);
    SignedRounding(y, scale);
    RoundAlike(x, y, scale);
  }

  /** `roundToWhole`: the whole amount, and the adjustment at the original scale. */
  function RoundToWhole(x: Decimal): (Decimal, Decimal) {
    var whole := RoundHalfUp(x, 0);
    (Decimal(whole, 0), Decimal(whole * Pow10(x.places) - x.units, x.places))
  }

  /** The amount is the nearest whole one; less the adjustment, which is at most a half, it is the original. */
  lemma RoundOffRestoresAmount(x: Decimal)
    ensures var (amount, roundOff) := RoundToWhole(x);
            && amount.places == 0 && IsNearest(x, 0, amount.units)
            && roundOff.places == x.places && amount.units * Pow10(x.places) - roundOff.units == x.units
            && 2 * Abs(roundOff.units) <= Pow10(x.places)
  {
    RoundingIsNearest(x, 0, RoundHalfUp(x, 0));
  }

  lemma SameSign(a: int, p: int)
    requires p > 0
    ensures (a >= 0 ==> a * p >= 0) && (a <= 0 ==> a * p <= 0) && (a == 0 <==> a * p == 0)
  {
  }

  // ---- Sums -------------------------------------------------------------------

  lemma {:induction false} SumAddLeading(s: seq<int>, k: nat)
    requires k <= |s|
    ensures Sum(AddLeading(s, k)) == Sum(s) + k
  {
    if s != [] {
      var n := |s| - 1;
      var j := if k <= n then k else n;
      SumAddLeading(s[..n], j);
      assert AddLeading(s, k)[..n] == AddLeading(s[..n], j);
    }
  }

  /** Topping up reaches the total when it was short by at most one unit per share, and else changes nothing. */
  lemma ToppedUpSum(shares: seq<int>, total: int)
    requires total - Sum(shares) <= |shares|
    ensures Sum(ToppedUp(shares, total)) == Max(total, Sum(shares))
  {
    SumAddLeading(shares, Max(0, total - Sum(shares)));
  }

  lemma {:induction false} SumOfEqual(total: int, parts: nat)
    requires parts >= 1
    ensures Sum(EqualShares(total, parts)) == TruncDiv(total, parts) * parts
  {
    SumOfConstant(TruncDiv(total, parts), parts);
    assert EqualShares(total, parts) == seq(parts, i => TruncDiv(total, parts));
  }

  lemma {:induction false} SumOfConstant(c: int, n: nat)
    ensures Sum(seq(n, i => c)) == c * n
  {
    if n > 0 {
      SumOfConstant(c, n - 1);
      assert seq(n, i => c)[..n - 1] == seq(n - 1, i => c);
    }
  }

  /** Truncating loses less than one divisor, on the side of zero. */
  lemma TruncationError(a: int, b: int)
    requires b != 0
    ensures Abs(a - TruncDiv(a, b) * b) == Abs(a) % Abs(b)
    ensures a >= 0 ==> a - TruncDiv(a, b) * b >= 0
    ensures a <= 0 ==> a - TruncDiv(a, b) * b <= 0
  {
    var q, r := Abs(a) / Abs(b), Abs(a) % Abs(b);
    assert Abs(a) == q * Abs(b) + r;
    var t := TruncDiv(a, b);
    if b > 0 {
      assert q * Abs(b) == q * b && (-q) * b == -(q * b);
    } else {
      assert q * Abs(b) == -(q * b) && (-q) * b == -(q * b);
    }
  }

  lemma EqualShortfall(total: int, parts: nat)
    requires parts >= 1
    ensures total - TruncDiv(total, parts) * parts
            == if total >= 0 then total % parts else -((-total) % parts)
    ensures Sum(EqualShares(total, parts)) == TruncDiv(total, parts) * parts
  {
    TruncationError(total, parts);
    SumOfEqual(total, parts);
  }

  // ---- allocate -----------------------------------------------------------------

  /**
   * `allocate` on every amount: the parts add up to the total unless it is negative and not
   * divisible, and then they exceed it by exactly the undistributed remainder.
   */
  lemma AllocateSum(total: int, parts: nat)
    requires parts >= 1
    ensures Sum(Allocated(total, parts)) == total <==> total >= 0 || (-total) % parts == 0
    ensures total < 0 ==> Sum(Allocated(total, parts)) == total + (-total) % parts
  {
    EqualShortfall(total, parts);
    ToppedUpSum(EqualShares(total, parts), total);
  }

  /** For any amount the parts never increase and any two differ by at most one unit. */
  lemma AllocateIsFair(total: int, parts: nat, i: nat, j: nat)
    requires parts >= 1 && i <= j < parts
    ensures |Allocated(total, parts)| == parts
    ensures Allocated(total, parts)[j] <= Allocated(total, parts)[i] <= Allocated(total, parts)[j] + 1
  {
  }

  // ---- allocateByWeights ----------------------------------------------------------

  lemma SumOfPrefix(s: seq<int>, n: nat)
    requires n < |s|
    ensures Sum(s[..n + 1]) == Sum(s[..n]) + s[n]
  {
    assert s[..n + 1][..n] == s[..n];
  }

  /** Total weight times what the first `n` truncations lost. */
  ghost function Residue(total: int, weights: seq<int>, n: nat): int
    requires Sum(weights) != 0 && n <= |weights|
  {
    total * Sum(weights[..n]) - Sum(WeightedShares(total, weights)[..n]) * Sum(weights)
  }

  lemma ResidueStep(total: int, weights: seq<int>, n: nat)
    requires Sum(weights) != 0 && n < |weights|
    ensures var a, w := total * weights[n], Sum(weights);
            Residue(total, weights, n + 1) == Residue(total, weights, n) + (a - TruncDiv(a, w) * w)
  {
    var shares := WeightedShares(total, weights);
    SumOfPrefix(weights, n);
    SumOfPrefix(shares, n);
    Distributes(total, Sum(weights[..n]), weights[n]);
    Distributes(Sum(weights), Sum(shares[..n]), shares[n]);
  }

  lemma Distributes(a: int, b: int, c: int)
    ensures a * (b + c) == a * b + a * c && (b + c) * a == b * a + c * a
  {
  }

  lemma ResidueOfAll(total: int, weights: seq<int>, all: seq<int>, shares: seq<int>)
    requires Sum(weights) != 0 && all == weights[..|weights|] && shares == WeightedShares(total, weights)[..|weights|]
    ensures Residue(total, weights, |weights|) == total * Sum(all) - Sum(shares) * Sum(weights)
  {
  }

  lemma FinalResidue(total: int, weights: seq<int>)
    requires Sum(weights) != 0
    ensures Residue(total, weights, |weights|) == (total - Sum(WeightedShares(total, weights))) * Sum(weights)
  {
    var shares := WeightedShares(total, weights);
    assert weights[..|weights|] == weights && shares[..|weights|] == shares;
    ResidueOfAll(total, weights, weights, shares);
    DifferenceTimes(total, Sum(shares), Sum(weights));
  }

  lemma DifferenceTimes(a: int, b: int, w: int)
    ensures (a - b) * w == a * w - b * w
  {
  }

  /** Over any prefix, the truncation errors add up to less than one weight total per share. */
  lemma {:induction false} TruncationsAddUp(total: int, weights: seq<int>, n: nat)
    requires Sum(weights) != 0 && n <= |weights|
    ensures Abs(Residue(total, weights, n)) <= n * (Abs(Sum(weights)) - 1)
  {
    var bound := Abs(Sum(weights)) - 1;
    if n == 0 {
      assert Residue(total, weights, 0) == total * 0 - 0 * Sum(weights) == 0;
    } else {
      TruncationsAddUp(total, weights, n - 1);
      ResidueStep(total, weights, n - 1);
      TruncationError(total * weights[n - 1], Sum(weights));
      Distributes(bound, n - 1, 1);
    }
  }

  /** The shares miss the total by less than one unit each, whatever the signs of the weights. */
  lemma WeightedShortfall(total: int, weights: seq<int>)
    requires Sum(weights) != 0
    ensures Abs(total - Sum(WeightedShares(total, weights))) < |weights|
  {
    TruncationsAddUp(total, weights, |weights|);
    FinalResidue(total, weights);
    var gap, w := total - Sum(WeightedShares(total, weights)), Sum(weights);
    AbsProduct(gap, w);
    ProductBound(Abs(gap), Abs(w), |weights|);
  }

  lemma ProductBound(gap: nat, w: nat, n: nat)
    requires w >= 1 && n >= 1 && gap * w <= n * (w - 1)
    ensures gap < n
  {
    Distributes(n, w, -1);
    if gap >= n {
      Distributes(w, gap - n, n);
      SignOfProduct(w, gap - n);
    }
  }

  lemma AbsProduct(a: int, b: int)
    ensures Abs(a * b) == Abs(a) * Abs(b)
  {
    if a < 0 {
      assert a * b == -(-a * b);
    }
  }

  /** For any weights with a non-zero sum: exact, unless truncation alone already overshot the total. */
  lemma ByWeightsSum(total: int, weights: seq<int>)
    requires Sum(weights) != 0
    ensures Sum(AllocatedByWeights(total, weights)) == Max(total, Sum(WeightedShares(total, weights)))
  {
    WeightedShortfall(total, weights);
    ToppedUpSum(WeightedShares(total, weights), total);
  }

  lemma {:induction false} TruncationsOneSided(total: int, weights: seq<int>, n: nat)
    requires Sum(weights) > 0 && n <= |weights| && forall i | 0 <= i < |weights| :: weights[i] >= 0
    ensures total >= 0 ==> Residue(total, weights, n) >= 0
    ensures total <= 0 ==> Residue(total, weights, n) <= 0
    ensures total < 0 ==> (Residue(total, weights, n) == 0
                           <==> forall i | 0 <= i < n :: Abs(total * weights[i]) % Sum(weights) == 0)
  {
    if n == 0 {
      assert Residue(total, weights, 0) == total * 0 - 0 * Sum(weights) == 0;
    } else {
      TruncationsOneSided(total, weights, n - 1);
      ResidueStep(total, weights, n - 1);
      TruncationError(total * weights[n - 1], Sum(weights));
      SignOfProduct(total, weights[n - 1]);
    }
  }

  lemma SignOfProduct(a: int, b: int)
    requires b >= 0
    ensures (a >= 0 ==> a * b >= 0) && (a <= 0 ==> a * b <= 0)
  {
  }

  /** For any weights with a non-zero sum, every share is its truncated proportional share or one unit more. */
  lemma ByWeightsIsProportional(total: int, weights: seq<int>, i: nat)
    requires Sum(weights) != 0 && i < |weights|
    ensures |AllocatedByWeights(total, weights)| == |weights|
    ensures var share := AllocatedByWeights(total, weights)[i];
            IsTruncated(total * weights[i], Sum(weights), share) || IsTruncated(total * weights[i], Sum(weights), share - 1)
  {
    var base := TruncDiv(total * weights[i], Sum(weights));
    TruncationMisses(total * weights[i], Sum(weights));
    assert WeightedShares(total, weights)[i] == base;
    assert AllocatedByWeights(total, weights)[i] in {base, base + 1};
  }

  lemma TruncationMisses(n: int, d: int)
    requires d != 0
    ensures IsTruncated(n, d, TruncDiv(n, d))
  {
    TruncationError(n, d);
  }

  /** Weights that add up to zero leave equal parts: exact, and fair, as `allocate` is. */
  lemma ZeroWeightsShareEqually(total: int, weights: seq<int>, i: nat, j: nat)
    requires weights != [] && Sum(weights) == 0 && i <= j < |weights|
    ensures var shares := AllocatedByWeights(total, weights);
            && |shares| == |weights| && shares[j] <= shares[i] <= shares[j] + 1
            && (Sum(shares) == total <==> total >= 0 || (-total) % |weights| == 0)
  {
    AllocateIsFair(total, |weights|, i, j);
    AllocateSum(total, |weights|);
  }

  /** With non-negative weights the total is met exactly unless it is negative and some share does not divide. */
  lemma ByWeightsIsExact(total: int, weights: seq<int>)
    requires Sum(weights) > 0 && forall i | 0 <= i < |weights| :: weights[i] >= 0
    ensures Sum(AllocatedByWeights(total, weights)) == total
            <==> total >= 0 || forall i | 0 <= i < |weights| :: Abs(total * weights[i]) % Sum(weights) == 0
  {
    ByWeightsSum(total, weights);
    TruncationsOneSided(total, weights, |weights|);
    ResidueIsTheGap(total, weights);
  }

  /** What truncation lost in all has the sign of the gap it leaves, and vanishes with it. */
  lemma ResidueIsTheGap(total: int, weights: seq<int>)
    requires Sum(weights) > 0
    ensures Residue(total, weights, |weights|) == 0 <==> total == Sum(WeightedShares(total, weights))
    ensures Residue(total, weights, |weights|) >= 0 ==> total >= Sum(WeightedShares(total, weights))
    ensures Residue(total, weights, |weights|) <= 0 ==> total <= Sum(WeightedShares(total, weights))
  {
    FinalResidue(total, weights);
    SignOfFactor(total - Sum(WeightedShares(total, weights)), Sum(weights), Residue(total, weights, |weights|));
  }

  lemma SignOfFactor(a: int, p: int, product: int)
    requires p > 0 && product == a * p
    ensures (product == 0 <==> a == 0) && (product >= 0 ==> a >= 0) && (product <= 0 ==> a <= 0)
  {
    SameSign(a, p);
  }
}
