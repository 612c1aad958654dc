/** Max-min fair shares (colossal/src/fsched.hpp), over the reals: the ratio is found by doubling
    until the shares use up the slots or every demand is met, then by 25 bisections. */
module FairShare {

  /** A user (pool or job): `fs_conf` and `fs_context`. */
  datatype Context = Context(weight: real, minshare: real, demand: int, fairshare: real, alloc: int, uid: nat)

  function Min(x: real, y: real): (r: real)
    ensures r <= x && r <= y && (r == x || r == y)
  {
    if y < x then y else x
  }

  function Max(x: real, y: real): (r: real)
    ensures r >= x && r >= y && (r == x || r == y)
  {
    if x < y then y else x
  }

  /** `compute_fairshare`. */
  function Share(c: Context, r: real): real {
    Min(c.demand as real, Max(c.weight * r, c.minshare))
  }

  function SumShares(cs: seq<Context>, r: real): real {
    if cs == [] then 0.0 else SumShares(cs[..|cs| - 1], r) + Share(cs[|cs| - 1], r)
  }

  function SumMinshares(cs: seq<Context>): real {
    if cs == [] then 0.0 else SumMinshares(cs[..|cs| - 1]) + cs[|cs| - 1].minshare
  }

  ghost function SumWeights(cs: seq<Context>): real {
    if cs == [] then 0.0 else SumWeights(cs[..|cs| - 1]) + cs[|cs| - 1].weight
  }

  ghost function SumDemands(cs: seq<Context>): real {
    if cs == [] then 0.0 else SumDemands(cs[..|cs| - 1]) + cs[|cs| - 1].demand as real
  }

  /** At ratio `r` nobody gets less than its demand. */
  ghost predicate Good(cs: seq<Context>, r: real) {
    forall i :: 0 <= i < |cs| ==> Share(cs[i], r) >= cs[i].demand as real
  }

  /** The test that ends the doubling and steers the bisection. */
  ghost predicate Enough(cs: seq<Context>, total: int, r: real) {
    Good(cs, r) || SumShares(cs, r) >= total as real
  }

  ghost predicate Weighted(cs: seq<Context>) {
    forall i :: 0 <= i < |cs| ==> cs[i].weight >= 0.0
  }

  /** Equal but for the computed fair shares. */
  ghost predicate SameUsers(cs: seq<Context>, cs': seq<Context>) {
    |cs| == |cs'| && forall i :: 0 <= i < |cs| ==> cs'[i] == cs[i].(fairshare := cs'[i].fairshare)
  }

  lemma {:induction false} SameUsersSameSums(cs: seq<Context>, cs': seq<Context>, r: real)
    requires SameUsers(cs, cs')
    ensures SumShares(cs, r) == SumShares(cs', r)
  {
    if cs != [] { SameUsersSameSums(cs[..|cs| - 1], cs'[..|cs| - 1], r); }
  }

  lemma SameUsersSameShares(cs: seq<Context>, cs': seq<Context>, total: int, r: real)
    requires SameUsers(cs, cs')
    ensures forall i :: 0 <= i < |cs| ==> Share(cs[i], r) == Share(cs'[i], r)
    ensures Enough(cs, total, r) <==> Enough(cs', total, r)
  {
    SameUsersSameSums(cs, cs', r);
    forall i | 0 <= i < |cs|
      ensures Share(cs[i], r) == Share(cs'[i], r) && cs[i].demand == cs'[i].demand
    {
      OnlyShareDiffers(cs[i], cs'[i], r);
    }
    hide Share;
  }

  lemma OnlyShareDiffers(c: Context, c': Context, r: real)
    requires c' == c.(fairshare := c'.fairshare)
    ensures Share(c, r) == Share(c', r)
  {
  }

  // ---------- How shares grow with the ratio ----------

  function Times(a: real, b: real): real { a * b }

  lemma Distribute(a: real, b: real, x: real)
    ensures Times(a + b, x) == Times(a, x) + Times(b, x)
  {
  }

  lemma TimesMonotone(a: real, x: real, y: real)
    requires a >= 0.0 && x <= y
    ensures Times(a, x) <= Times(a, y)
    ensures Times(a, y) == Times(a, x) + Times(a, y - x)
  {
  }

  /** A share grows with the ratio, at no more than the user's weight. */
  lemma ShareGrowth(c: Context, r: real, r': real)
    requires c.weight >= 0.0 && r <= r'
    ensures Share(c, r) <= Share(c, r') <= Share(c, r) + Times(c.weight, r' - r)
  {
    TimesMonotone(c.weight, r, r');
    TimesMonotone(c.weight, 0.0, r' - r);
  }

  lemma {:induction false} SumGrowth(cs: seq<Context>, r: real, r': real)
    requires Weighted(cs) && r <= r'
    ensures SumShares(cs, r) <= SumShares(cs, r') <= SumShares(cs, r) + Times(SumWeights(cs), r' - r)
  {
    hide Share, Times;
    if cs != [] {
      var before, c := cs[..|cs| - 1], cs[|cs| - 1];
      SumGrowth(before, r, r');
      ShareGrowth(c, r, r');
      Distribute(SumWeights(before), c.weight, r' - r);
    } else {
      ZeroTimes(r' - r);
    }
  }

  lemma ZeroTimes(x: real)
    ensures Times(0.0, x) == 0.0
  {
  }

  lemma EnoughGrows(cs: seq<Context>, total: int, r: real, r': real)
    requires Weighted(cs) && r <= r' && Enough(cs, total, r)
    ensures Enough(cs, total, r')
  {
    SumGrowth(cs, r, r');
    forall i | 0 <= i < |cs|
      ensures Share(cs[i], r) <= Share(cs[i], r')
    {
      ShareGrowth(cs[i], r, r');
    }
  }

  /** A share never exceeds the demand and never falls below the smaller of demand and min share. */
  lemma ShareRange(c: Context, r: real)
    ensures Min(c.demand as real, c.minshare) <= Share(c, r) <= c.demand as real
  {
  }

  lemma {:induction false} SharesWithinDemands(cs: seq<Context>, r: real)
    ensures SumShares(cs, r) <= SumDemands(cs)
    ensures Good(cs, r) ==> SumShares(cs, r) == SumDemands(cs)
  {
    if cs != [] {
      SharesWithinDemands(cs[..|cs| - 1], r);
      assert Good(cs, r) ==> Good(cs[..|cs| - 1], r);
    }
  }

  /** At ratio zero nobody gets more than its min share. */
  lemma {:induction false} SharesAtZero(cs: seq<Context>)
    requires forall i :: 0 <= i < |cs| ==> cs[i].minshare >= 0.0
    ensures SumShares(cs, 0.0) <= SumMinshares(cs)
  {
    if cs != [] {
      SharesAtZero(cs[..|cs| - 1]);
      assert cs[|cs| - 1].weight * 0.0 == 0.0;
    }
  }

  // ---------- What a share is, without naming how it is computed ----------

  /** `x` is the user's share at ratio `r`: all it demands, or at least its weight times the ratio and at
      least its min share; and no more than its weight times the ratio, unless that is its min share. */
  ghost predicate IsShare(c: Context, r: real, x: real) {
    && x <= c.demand as real
    && (x < c.demand as real ==> x >= c.weight * r && x >= c.minshare)
    && (x > c.minshare ==> x <= c.weight * r)
  }

  lemma ShareIsPinned(c: Context, r: real, x: real)
    ensures IsShare(c, r, x) <==> x == Share(c, r)
  {
  }

  ghost predicate AreShares(cs: seq<Context>, r: real, xs: seq<real>) {
    |xs| == |cs| && forall i :: 0 <= i < |cs| ==> IsShare(cs[i], r, xs[i])
  }

  ghost function Sum(xs: seq<real>): real {
    if xs == [] then 0.0 else Sum(xs[..|xs| - 1]) + xs[|xs| - 1]
  }

  /** The amounts `xs` meet every demand or use up the slots. */
  ghost predicate Suffices(cs: seq<Context>, total: int, xs: seq<real>)
    requires |xs| == |cs|
  {
    (forall i :: 0 <= i < |cs| ==> xs[i] >= cs[i].demand as real) || Sum(xs) >= total as real
  }

  lemma {:induction false} SharesAddUp(cs: seq<Context>, r: real, xs: seq<real>)
    requires AreShares(cs, r, xs)
    ensures Sum(xs) == SumShares(cs, r)
    ensures forall i :: 0 <= i < |cs| ==> xs[i] == Share(cs[i], r)
  {
    hide IsShare, Share;
    if cs != [] {
      var n := |cs| - 1;
      SharesAddUp(cs[..n], r, xs[..n]);
      ShareIsPinned(cs[n], r, xs[n]);
      assert forall i :: 0 <= i < n ==> xs[..n][i] == xs[i] && cs[..n][i] == cs[i];
    }
  }

  lemma SharesSuffice(cs: seq<Context>, total: int, r: real, xs: seq<real>)
    requires AreShares(cs, r, xs)
    ensures Suffices(cs, total, xs) <==> Enough(cs, total, r)
  {
    SharesAddUp(cs, r, xs);
    hide IsShare, Share;
  }

  /** Weighted max-min fairness: a user that gets less than it demands gets no less for its weight than any
      user that gets more than its min share. */
  ghost predicate MaxMin(cs: seq<Context>) {
    forall i, j ::
      (0 <= i < |cs| && 0 <= j < |cs| &&
       cs[i].fairshare < cs[i].demand as real && cs[j].fairshare > cs[j].minshare) ==> MaxMinPair(cs[i], cs[j])
  }

  ghost predicate MaxMinPair(a: Context, b: Context) {
    b.fairshare * a.weight <= a.fairshare * b.weight
  }

  lemma SharesAreFair(a: Context, b: Context, r: real)
    requires IsShare(a, r, a.fairshare) && IsShare(b, r, b.fairshare) && a.weight >= 0.0 && b.weight >= 0.0
    requires a.fairshare < a.demand as real && b.fairshare > b.minshare
    ensures MaxMinPair(a, b)
  {
    var x, y := a.weight * r, b.weight * r;
    assert x <= a.fairshare && b.fairshare <= y;
    assert b.fairshare * a.weight <= y * a.weight;
    assert x * b.weight <= a.fairshare * b.weight;
    assert y * a.weight == x * b.weight;
  }

  lemma SharesAreMaxMinFair(cs: seq<Context>, r: real)
    requires Weighted(cs) && forall i :: 0 <= i < |cs| ==> IsShare(cs[i], r, cs[i].fairshare)
    ensures MaxMin(cs)
  {
    hide IsShare, MaxMinPair;
    forall i, j | 0 <= i < |cs| && 0 <= j < |cs| &&
      cs[i].fairshare < cs[i].demand as real && cs[j].fairshare > cs[j].minshare
      ensures MaxMinPair(cs[i], cs[j])
    {
      SharesAreFair(cs[i], cs[j], r);
    }
  }

  // ---------- When the doubling ends ----------

  ghost function TwoTo(k: nat): real {
    if k == 0 then 1.0 else 2.0 * TwoTo(k - 1)
  }

  /** A user's share at every large enough ratio. */
  ghost function Limit(c: Context): real {
    if c.weight > 0.0 then c.demand as real else Min(c.demand as real, Max(0.0, c.minshare))
  }

  ghost function SumLimits(cs: seq<Context>): real {
    if cs == [] then 0.0 else SumLimits(cs[..|cs| - 1]) + Limit(cs[|cs| - 1])
  }

  /** The condition under which the doubling ends: once every weighted user is satisfied, either
      all are, or the slots are used up.  It holds whenever all weights are positive. */
  ghost predicate Reachable(cs: seq<Context>, total: int) {
    (forall i :: 0 <= i < |cs| ==> Limit(cs[i]) >= cs[i].demand as real) || SumLimits(cs) >= total as real
  }

  lemma {:induction false} TwoToGrows(k: nat)
    ensures TwoTo(k) > k as real
  {
    if k > 0 { TwoToGrows(k - 1); }
  }

  lemma {:induction false} TwoToMonotone(j: nat, k: nat)
    requires j <= k
    ensures 0.0 < TwoTo(j) <= TwoTo(k)
  {
    if j < k { TwoToMonotone(j, k - 1); } else if k > 0 { TwoToMonotone(k - 1, k - 1); }
  }

  lemma {:induction false} SharesBelowLimits(cs: seq<Context>, r: real)
    requires Weighted(cs) && r >= 0.0
    ensures SumShares(cs, r) <= SumLimits(cs)
    ensures forall i :: 0 <= i < |cs| ==> Share(cs[i], r) <= Limit(cs[i])
  {
    if cs != [] {
      SharesBelowLimits(cs[..|cs| - 1], r);
      assert forall i :: 0 <= i < |cs| - 1 ==> cs[..|cs| - 1][i] == cs[i];
      if cs[|cs| - 1].weight == 0.0 { assert cs[|cs| - 1].weight * r == 0.0; }
    }
  }

  lemma LimitReachedBy(c: Context) returns (k: nat)
    requires c.weight >= 0.0
    ensures forall r :: r >= TwoTo(k) ==> Share(c, r) >= Limit(c)
  {
    if c.weight == 0.0 {
      k := 0;
      forall r | r >= TwoTo(k)
        ensures Share(c, r) >= Limit(c)
      {
        assert c.weight * r == 0.0;
      }
    } else if c.demand <= 0 {
      k := 0;
      forall r | r >= TwoTo(k)
        ensures Share(c, r) >= Limit(c)
      {
        assert c.weight * r >= 0.0;
      }
    } else {
      var q := c.demand as real / c.weight;
      assert q * c.weight == c.demand as real && q >= 0.0;
      k := q.Floor + 1;
      TwoToGrows(k);
      forall r | r >= TwoTo(k)
        ensures Share(c, r) >= Limit(c)
      {
        assert r >= q;
        assert c.weight * r - c.weight * q == c.weight * (r - q) >= 0.0;
      }
    }
  }

  lemma {:induction false} LimitsReached(cs: seq<Context>) returns (k: nat)
    requires Weighted(cs)
    ensures forall r :: r >= TwoTo(k) ==> SumShares(cs, r) >= SumLimits(cs)
    ensures forall r, i :: r >= TwoTo(k) && 0 <= i < |cs| ==> Share(cs[i], r) >= Limit(cs[i])
  {
    if cs == [] {
      k := 0;
    } else {
      var j := LimitsReached(cs[..|cs| - 1]);
      var j' := LimitReachedBy(cs[|cs| - 1]);
      k := if j < j' then j' else j;
      TwoToMonotone(j, k);
      TwoToMonotone(j', k);
      forall r, i | r >= TwoTo(k) && 0 <= i < |cs|
        ensures Share(cs[i], r) >= Limit(cs[i])
      {
        assert i < |cs| - 1 ==> cs[i] == cs[..|cs| - 1][i];
      }
    }
  }

  /** The doubling ends if and only if the limits are enough. */
  lemma DoublingEndsExactlyWhenReachable(cs: seq<Context>, total: int)
    requires Weighted(cs)
    ensures (exists k: nat :: Enough(cs, total, TwoTo(k))) <==> Reachable(cs, total)
  {
    if Reachable(cs, total) {
      var k := LimitsReached(cs);
      assert Enough(cs, total, TwoTo(k));
    }
    if k: nat :| Enough(cs, total, TwoTo(k)) {
      TwoToMonotone(k, k);
      SharesBelowLimits(cs, TwoTo(k));
    }
  }

  lemma PositiveWeightsSuffice(cs: seq<Context>, total: int)
    requires forall i :: 0 <= i < |cs| ==> cs[i].weight > 0.0
    ensures Reachable(cs, total)
  {
  }

  /** A user without weight and min share that asks for something keeps the doubling going for ever. */
  lemma WeightlessUserNeverEnough(c: Context, total: int)
    requires c.weight == 0.0 && c.minshare == 0.0 && c.demand > 0 && total > 0
    ensures forall k: nat :: !Enough([c], total, TwoTo(k))
  {
    var cs := [c];
    assert Limit(cs[0]) == 0.0 && SumLimits(cs) == SumLimits(cs[..0]) + 0.0;
    assert !Reachable(cs, total);
    DoublingEndsExactlyWhenReachable(cs, total);
    hide Enough;
  }

  // ---------- The computation as a function ----------

  /** The upper bound found by doubling is the first power of two that is enough. */
  ghost predicate IsBound(cs: seq<Context>, total: int, k: nat) {
    Enough(cs, total, TwoTo(k)) && forall j: nat :: j < k ==> !Enough(cs, total, TwoTo(j))
  }

  /** An interval of ratios, and the ratio last tried. */
  datatype Bracket = Bracket(lower: real, upper: real, tried: real)

  ghost function Halve(cs: seq<Context>, total: int, b: Bracket): Bracket {
    var m := (b.lower + b.upper) / 2.0;
    if Enough(cs, total, m) then Bracket(b.lower, m, m) else Bracket(m, b.upper, m)
  }

  ghost function Bisect(cs: seq<Context>, total: int, upper: real, n: nat): Bracket {
    if n == 0 then Bracket(0.0, upper, upper) else Halve(cs, total, Bisect(cs, total, upper, n - 1))
  }

  /** The width of the bracket after `n` halvings. */
  ghost function Width(k: nat, n: nat): real {
    if n == 0 then TwoTo(k) else Width(k, n - 1) / 2.0
  }

  /** What the bisection maintains after `n` halvings. */
  lemma {:induction false} BisectInvariant(cs: seq<Context>, total: int, k: nat, n: nat)
    requires Enough(cs, total, TwoTo(k))
    ensures var b := Bisect(cs, total, TwoTo(k), n);
            && 0.0 <= b.lower <= b.upper
            && b.upper - b.lower == Width(k, n)
            && (b.tried == b.lower || b.tried == b.upper)
            && Enough(cs, total, b.upper)
            && (b.lower == 0.0 || !Enough(cs, total, b.lower))
  {
    hide Enough;
    TwoToMonotone(k, k);
    if n > 0 {
      BisectInvariant(cs, total, k, n - 1);
      WidthPositive(k, n - 1);
    }
  }

  lemma {:induction false} WidthPositive(k: nat, n: nat)
    ensures Width(k, n) > 0.0
  {
    if n > 0 { WidthPositive(k, n - 1); } else { TwoToMonotone(k, k); }
  }

  lemma FiveHalvings(k: nat, n: nat)
    ensures Width(k, n + 5) == Width(k, n) / 32.0
  {
    assert Width(k, n + 2) == Width(k, n) / 4.0;
    assert Width(k, n + 4) == Width(k, n + 2) / 4.0;
  }

  lemma FinalWidth(k: nat)
    ensures Width(k, 25) == TwoTo(k) / 33554432.0
  {
    FiveHalvings(k, 0);
    FiveHalvings(k, 5);
    FiveHalvings(k, 10);
    FiveHalvings(k, 15);
    FiveHalvings(k, 20);
  }

  /** The shares computed: what the users get at the ratio last tried. */
  ghost function Ratio(cs: seq<Context>, total: int, k: nat): Bracket {
    Bisect(cs, total, TwoTo(k), 25)
  }

  /** How close the 25 bisections come.  When the demands reach the number of slots, the shares use
      up the slots to within the sum of the weights times the width of the last interval; otherwise every user's
      share comes as close to its demand. */
  lemma SharesAreMaxMin(cs: seq<Context>, total: int, k: nat)
    requires Weighted(cs) && IsBound(cs, total, k)
    requires forall i :: 0 <= i < |cs| ==> cs[i].minshare >= 0.0
    requires SumMinshares(cs) <= total as real
    ensures var m, e := Ratio(cs, total, k).tried, TwoTo(k) / 33554432.0;
            && (SumDemands(cs) >= total as real ==>
                  -Times(SumWeights(cs), e) <= SumShares(cs, m) - total as real <= Times(SumWeights(cs), e))
            && (SumDemands(cs) < total as real ==>
                  forall i :: 0 <= i < |cs| ==> Share(cs[i], m) >= cs[i].demand as real - Times(cs[i].weight, e))
  {
    hide Share, Times, SumShares, SumDemands, SumMinshares, SumWeights, TwoTo, Width, Bisect;
    BisectInvariant(cs, total, k, 25);
    var b := Ratio(cs, total, k);
    var e := b.upper - b.lower;
    FinalWidth(k);
    SumGrowth(cs, b.lower, b.upper);
    SharesAtZero(cs);
    SharesWithinDemands(cs, b.upper);
    SharesWithinDemands(cs, b.lower);
    forall i | 0 <= i < |cs| && SumDemands(cs) < total as real
      ensures Share(cs[i], b.tried) >= cs[i].demand as real - Times(cs[i].weight, e)
    {
      ShareGrowth(cs[i], b.lower, b.upper);
      ShareRange(cs[i], b.upper);
    }
  }

  /** The ratio returned is enough, as is every larger one, and exceeds the least enough ratio by at
      most the width of the last interval. */
  lemma RatioIsNearlyLeast(cs: seq<Context>, total: int, k: nat, r: real)
    requires Weighted(cs) && IsBound(cs, total, k) && r >= 0.0
    ensures var ru, e := Ratio(cs, total, k).upper, TwoTo(k) / 33554432.0;
            && (r >= ru ==> Enough(cs, total, r))
            && (r < ru - e ==> !Enough(cs, total, r))
  {
    hide Enough;
    BisectInvariant(cs, total, k, 25);
    FinalWidth(k);
    var b := Ratio(cs, total, k);
    if r >= b.upper { EnoughGrows(cs, total, b.upper, r); }
    if r < b.lower && Enough(cs, total, r) { EnoughGrows(cs, total, r, b.lower); }
  }

  /** The bound is unique, so the ratio is a function of the users and the number of slots. */
  lemma BoundIsUnique(cs: seq<Context>, total: int, j: nat, k: nat)
    requires IsBound(cs, total, j) && IsBound(cs, total, k)
    ensures j == k
  {
  }

  lemma OnlyBound(cs: seq<Context>, total: int, k: nat)
    requires IsBound(cs, total, k)
    ensures forall j :: IsBound(cs, total, j) ==> j == k
  {
    forall j | IsBound(cs, total, j)
      ensures j == k
    {
      BoundIsUnique(cs, total, j, k);
    }
  }

  // ---------- What is computed, without naming how ----------

  /** Of the powers of two, that of `k` is the first whose shares suffice. */
  ghost predicate FirstEnough(cs: seq<Context>, total: int, k: nat) {
    && (forall xs :: AreShares(cs, TwoTo(k), xs) ==> Suffices(cs, total, xs))
    && (forall j: nat, xs :: j < k && AreShares(cs, TwoTo(j), xs) ==> !Suffices(cs, total, xs))
  }

  /** The shares at `r` and at every larger ratio suffice, those at ratios smaller by more than `e` do not. */
  ghost predicate IsRatio(cs: seq<Context>, total: int, r: real, e: real) {
    forall x, xs :: x >= 0.0 && AreShares(cs, x, xs) ==>
      (x >= r ==> Suffices(cs, total, xs)) && (x < r - e ==> !Suffices(cs, total, xs))
  }

  /** The amounts use up the slots to within the weights times `e`, if the demands reach the slots; otherwise
      each comes that close, by its weight, to its demand. */
  ghost predicate FitSlots(cs: seq<Context>, total: int, xs: seq<real>, e: real)
    requires |xs| == |cs|
  {
    && (SumDemands(cs) >= total as real ==>
          -Times(SumWeights(cs), e) <= Sum(xs) - total as real <= Times(SumWeights(cs), e))
    && (SumDemands(cs) < total as real ==>
          forall i :: 0 <= i < |cs| ==> xs[i] >= cs[i].demand as real - Times(cs[i].weight, e))
  }

  ghost function Fairshares(cs: seq<Context>): (xs: seq<real>)
    ensures |xs| == |cs| && forall i :: 0 <= i < |cs| ==> xs[i] == cs[i].fairshare
  {
    seq(|cs|, i requires 0 <= i < |cs| => cs[i].fairshare)
  }

  /** The width of the last interval, when the doubling has ended at the `k`th power of two. */
  ghost function LastWidth(k: nat): real { TwoTo(k) / 33554432.0 }

  lemma BoundIsFirstEnough(cs: seq<Context>, total: int, k: nat)
    requires IsBound(cs, total, k)
    ensures FirstEnough(cs, total, k)
  {
    hide IsShare, Suffices, Enough, TwoTo;
    forall j: nat, xs | j <= k && AreShares(cs, TwoTo(j), xs)
      ensures Suffices(cs, total, xs) <==> j == k
    {
      SharesSuffice(cs, total, TwoTo(j), xs);
    }
  }

  lemma RatioIsPinned(cs: seq<Context>, total: int, k: nat)
    requires Weighted(cs) && IsBound(cs, total, k)
    ensures IsRatio(cs, total, Ratio(cs, total, k).upper, LastWidth(k))
  {
    hide IsShare, Suffices, Enough, Ratio, IsBound;
    var r := Ratio(cs, total, k).upper;
    forall x, xs | x >= 0.0 && AreShares(cs, x, xs)
      ensures x >= r ==> Suffices(cs, total, xs)
      ensures x < r - LastWidth(k) ==> !Suffices(cs, total, xs)
    {
      SharesSuffice(cs, total, x, xs);
      RatioIsNearlyLeast(cs, total, k, x);
    }
  }

  ghost predicate Floored(cs: seq<Context>) {
    forall i :: 0 <= i < |cs| ==> cs[i].minshare >= 0.0
  }

  /** The users have the shares at ratio `m`, which is within the width of the last interval of `r`, the least
      ratio to suffice to within that width; if the min shares fit the slots, so do the shares. */
  ghost predicate AtRatio(cs: seq<Context>, total: int, k: nat, m: real, r: real) {
    && FirstEnough(cs, total, k) && IsRatio(cs, total, r, LastWidth(k))
    && r - LastWidth(k) <= m <= r
    && AreShares(cs, m, Fairshares(cs))
    && (Floored(cs) && SumMinshares(cs) <= total as real ==> FitSlots(cs, total, Fairshares(cs), LastWidth(k)))
  }

  /** The users have the fair shares of `total` slots. */
  ghost predicate SharesFor(cs: seq<Context>, total: int) {
    exists k: nat, m: real, r: real :: AtRatio(cs, total, k, m, r)
  }

  lemma SharesForAreMaxMin(cs: seq<Context>, total: int)
    requires Weighted(cs) && SharesFor(cs, total)
    ensures MaxMin(cs)
    ensures Floored(cs) && SumMinshares(cs) <= total as real ==>
              exists k: nat :: FirstEnough(cs, total, k) && FitSlots(cs, total, Fairshares(cs), LastWidth(k))
  {
    hide IsShare, FirstEnough, FitSlots, MaxMin;
    var k: nat, m, r :| AtRatio(cs, total, k, m, r);
    SharesAreMaxMinFair(cs, m);
  }

  /** Equal weights, min shares and demands. */
  ghost predicate SameNeeds(cs: seq<Context>, cs': seq<Context>) {
    |cs| == |cs'| && forall i :: 0 <= i < |cs| ==>
      cs'[i].weight == cs[i].weight && cs'[i].minshare == cs[i].minshare && cs'[i].demand == cs[i].demand
  }

  lemma {:induction false} SameNeedsSameSums(cs: seq<Context>, cs': seq<Context>)
    requires SameNeeds(cs, cs')
    ensures SumDemands(cs') == SumDemands(cs) && SumWeights(cs') == SumWeights(cs)
    ensures SumMinshares(cs') == SumMinshares(cs)
  {
    if cs != [] { SameNeedsSameSums(cs[..|cs| - 1], cs'[..|cs| - 1]); }
  }

  lemma SameNeedsSameShares(cs: seq<Context>, cs': seq<Context>, total: int, r: real, xs: seq<real>)
    requires SameNeeds(cs, cs')
    ensures AreShares(cs', r, xs) <==> AreShares(cs, r, xs)
    ensures |xs| == |cs| ==> (Suffices(cs', total, xs) <==> Suffices(cs, total, xs))
  {
    forall i | 0 <= i < |cs| == |xs|
      ensures IsShare(cs'[i], r, xs[i]) <==> IsShare(cs[i], r, xs[i])
    {
      var x, y := cs'[i].weight * r, cs[i].weight * r;
      assert x == y;
    }
    hide IsShare;
  }

  lemma SameNeedsSameRatio(cs: seq<Context>, cs': seq<Context>, total: int, k: nat, r: real)
    requires SameNeeds(cs, cs')
    ensures FirstEnough(cs, total, k) ==> FirstEnough(cs', total, k)
    ensures IsRatio(cs, total, r, LastWidth(k)) ==> IsRatio(cs', total, r, LastWidth(k))
  {
    hide IsShare, Suffices, TwoTo, SameNeeds;
    assert |cs| == |cs'| by { SameNeedsSameLength(cs, cs'); }
    forall x, xs | AreShares(cs', x, xs)
      ensures AreShares(cs, x, xs) && (Suffices(cs', total, xs) <==> Suffices(cs, total, xs))
    {
      SameNeedsSameShares(cs, cs', total, x, xs);
    }
  }

  lemma SameNeedsSameLength(cs: seq<Context>, cs': seq<Context>)
    requires SameNeeds(cs, cs')
    ensures |cs| == |cs'|
  {
  }

  /** What depends on needs and shares alone. */
  lemma SameNeedsStayAtRatio(cs: seq<Context>, cs': seq<Context>, total: int, k: nat, m: real, r: real)
    requires SameNeeds(cs, cs') && Fairshares(cs) == Fairshares(cs') && AtRatio(cs, total, k, m, r)
    ensures AtRatio(cs', total, k, m, r)
  {
    SameNeedsSameRatio(cs, cs', total, k, r);
    SameNeedsSameShares(cs, cs', total, m, Fairshares(cs));
    SameNeedsSameSums(cs, cs');
    hide FirstEnough, IsRatio, AreShares, SumDemands, SumWeights, SumMinshares, Times, LastWidth;
  }

  /** Before anything is demanded. */
  ghost predicate NothingAsked(cs: seq<Context>) {
    Weighted(cs) && Floored(cs) && forall i :: 0 <= i < |cs| ==> cs[i].demand == 0 && cs[i].fairshare == 0.0
  }

  lemma {:induction false} NothingAddsUp(cs: seq<Context>)
    requires NothingAsked(cs)
    ensures SumDemands(cs) == 0.0 && SumWeights(cs) >= 0.0 && Sum(Fairshares(cs)) == 0.0
  {
    if cs != [] {
      var n := |cs| - 1;
      NothingAddsUp(cs[..n]);
      assert Fairshares(cs)[..n] == Fairshares(cs[..n]);
    }
  }

  lemma NothingAskedNothingShared(cs: seq<Context>, total: nat)
    requires NothingAsked(cs)
    ensures SharesFor(cs, total)
  {
    var w := LastWidth(0);
    assert w > 0.0;
    forall x, xs | AreShares(cs, x, xs)
      ensures Suffices(cs, total, xs)
    {
      assert forall i :: 0 <= i < |cs| ==> IsShare(cs[i], x, xs[i]);
    }
    NothingAddsUp(cs);
    assert Times(SumWeights(cs), w) >= 0.0;
    assert forall i :: 0 <= i < |cs| ==> Times(cs[i].weight, w) >= 0.0;
    assert AtRatio(cs, total, 0, 0.0, 0.0);
  }

  /** The ratio last tried is within the width of the last interval of the one returned. */
  lemma TriedIsNear(cs: seq<Context>, total: int, k: nat)
    requires IsBound(cs, total, k)
    ensures Ratio(cs, total, k).upper - LastWidth(k) <= Ratio(cs, total, k).tried <= Ratio(cs, total, k).upper
  {
    hide Enough;
    BisectInvariant(cs, total, k, 25);
    FinalWidth(k);
    WidthPositive(k, 25);
  }

  lemma SharesFitSlots(cs: seq<Context>, total: int, k: nat, xs: seq<real>)
    requires Weighted(cs) && IsBound(cs, total, k) && AreShares(cs, Ratio(cs, total, k).tried, xs)
    requires Floored(cs) && SumMinshares(cs) <= total as real
    ensures FitSlots(cs, total, xs, LastWidth(k))
  {
    hide IsShare, Share, IsBound, Ratio, TwoTo;
    SharesAddUp(cs, Ratio(cs, total, k).tried, xs);
    SharesAreMaxMin(cs, total, k);
  }

  lemma SharesAt(cs: seq<Context>, m: real, xs: seq<real>)
    requires |xs| == |cs| && forall i :: 0 <= i < |cs| ==> xs[i] == Share(cs[i], m)
    ensures AreShares(cs, m, xs)
  {
    hide IsShare, Share;
    forall i | 0 <= i < |cs|
      ensures IsShare(cs[i], m, xs[i])
    {
      ShareIsPinned(cs[i], m, xs[i]);
    }
  }

  /** Users with the shares at the ratio last tried for equal needs. */
  lemma TriedSharesFit(us: seq<Context>, cs: seq<Context>, total: int, k: nat)
    requires Weighted(us) && IsBound(us, total, k) && SameUsers(us, cs)
    requires forall i :: 0 <= i < |us| ==> cs[i].fairshare == Share(us[i], Ratio(us, total, k).tried)
    ensures AtRatio(cs, total, k, Ratio(us, total, k).tried, Ratio(us, total, k).upper)
    ensures MaxMin(cs)
  {
    var m, r, xs := Ratio(us, total, k).tried, Ratio(us, total, k).upper, Fairshares(cs);
    hide Share, Ratio, IsBound, FirstEnough, IsRatio, FitSlots, MaxMin, IsShare, LastWidth, SumMinshares;
    BoundIsFirstEnough(us, total, k);
    RatioIsPinned(us, total, k);
    TriedIsNear(us, total, k);
    SharesAt(us, m, xs);
    SameNeedsSameRatio(us, cs, total, k, r);
    SameNeedsSameShares(us, cs, total, m, xs);
    SharesAreMaxMinFair(cs, m);
    FitSame(us, cs, total, k, xs);
  }

  lemma FitSame(us: seq<Context>, cs: seq<Context>, total: int, k: nat, xs: seq<real>)
    requires Weighted(us) && IsBound(us, total, k) && AreShares(us, Ratio(us, total, k).tried, xs)
    requires SameNeeds(us, cs)
    ensures |cs| == |xs|
    ensures Floored(cs) && SumMinshares(cs) <= total as real ==> FitSlots(cs, total, xs, LastWidth(k))
  {
    hide IsBound, Ratio, IsShare, LastWidth, Times, SumDemands, SumWeights, SumMinshares;
    SameNeedsSameSums(us, cs);
    if Floored(cs) && SumMinshares(cs) <= total as real { SharesFitSlots(us, total, k, xs); }
  }

  // ---------- The loops ----------

  /** The inner loop: the shares at ratio `r` and whether they are enough. */
  method TryRatio(users: array<Context>, total: int, r: real) returns (enough: bool)
    ensures enough <==> Enough(users[..], total, r)
  {
    var sum := 0.0;
    var good := true;
    for i := 0 to users.Length
      invariant sum == SumShares(users[..i], r)
      invariant good <==> Good(users[..i], r)
    {
      var fs := Share(users[i], r);
      if fs < users[i].demand as real { good := false; }
      sum := sum + fs;
      assert users[..i + 1][..i] == users[..i];
      assert Good(users[..i + 1], r) <==> Good(users[..i], r) && fs >= users[i].demand as real;
    }
    assert users[..users.Length] == users[..];
    enough := good || sum >= total as real;
  }

  /** The doubling loop. */
  method FindBound(users: array<Context>, total: int) returns (ru: real, ghost k: nat)
    requires Weighted(users[..]) && Reachable(users[..], total)
    ensures IsBound(users[..], total, k) && ru == TwoTo(k)
    ensures forall j :: IsBound(users[..], total, j) ==> ru == TwoTo(j)
  {
    DoublingEndsExactlyWhenReachable(users[..], total);
    ghost var end: nat :| Enough(users[..], total, TwoTo(end));
    ru := 1.0;
    k := 0;
    var enough := TryRatio(users, total, ru);
    while !enough
      invariant ru == TwoTo(k) && k <= end
      invariant enough <==> Enough(users[..], total, ru)
      invariant forall j: nat :: j < k ==> !Enough(users[..], total, TwoTo(j))
      decreases end - k
    {
      ru := ru * 2.0;
      k := k + 1;
      enough := TryRatio(users, total, ru);
    }
    OnlyBound(users[..], total, k);
  }

  /** `compute_ratio`. */
  method ComputeRatio(users: array<Context>, total: int) returns (r: real, ghost k: nat)
    requires Weighted(users[..]) && Reachable(users[..], total)
    ensures IsBound(users[..], total, k) && r == Ratio(users[..], total, k).upper
    ensures forall j :: IsBound(users[..], total, j) ==> r == Ratio(users[..], total, j).upper
    ensures FirstEnough(users[..], total, k) && IsRatio(users[..], total, r, LastWidth(k))
  {
    r, k := FindBound(users, total);
    var rl := 0.0;
    ghost var b := Bisect(users[..], total, TwoTo(k), 0);
    for n := 0 to 25
      invariant b == Bisect(users[..], total, TwoTo(k), n) && b.lower == rl && b.upper == r
    {
      var m := (rl + r) / 2.0;
      var enough := TryRatio(users, total, m);
      if enough { r := m; } else { rl := m; }
      b := Halve(users[..], total, b);
    }
    OnlyBound(users[..], total, k);
    BoundIsFirstEnough(users[..], total, k);
    RatioIsPinned(users[..], total, k);
  }

  /** The inner loop of `compute_fairshares`, which also records the shares. */
  method AssignShares(users: array<Context>, total: int, r: real) returns (enough: bool)
    modifies users
    ensures SameUsers(old(users[..]), users[..])
    ensures forall i :: 0 <= i < users.Length ==> users[i].fairshare == Share(old(users[i]), r)
    ensures enough <==> Enough(old(users[..]), total, r)
  {
    ghost var us := users[..];
    var sum := 0.0;
    var good := true;
    for i := 0 to users.Length
      invariant forall j :: i <= j < users.Length ==> users[j] == us[j]
      invariant forall j :: 0 <= j < i ==> users[j] == us[j].(fairshare := Share(us[j], r))
      invariant sum == SumShares(us[..i], r)
      invariant good <==> Good(us[..i], r)
    {
      users[i] := users[i].(fairshare := Share(users[i], r));
      if users[i].fairshare < users[i].demand as real { good := false; }
      sum := sum + users[i].fairshare;
      assert us[..i + 1][..i] == us[..i];
      assert Good(us[..i + 1], r) <==> Good(us[..i], r) && Share(us[i], r) >= us[i].demand as real;
    }
    assert us[..users.Length] == us;
    enough := good || sum >= total as real;
  }

  /** `compute_fairshares`: gives every user its share at the ratio `m` last tried and returns the
      same ratio as `compute_ratio`. */
  method ComputeFairshares(users: array<Context>, total: int) returns (r: real, ghost k: nat, ghost m: real)
    requires Weighted(users[..]) && Reachable(users[..], total)
    modifies users
    ensures SameUsers(old(users[..]), users[..])
    ensures IsBound(old(users[..]), total, k) && r == Ratio(old(users[..]), total, k).upper
    ensures forall j :: IsBound(old(users[..]), total, j) ==> r == Ratio(old(users[..]), total, j).upper
    ensures AtRatio(users[..], total, k, m, r) && MaxMin(users[..])
  {
    hide *;
    r, k := BisectShares(users, total);
    m := Ratio(old(users[..]), total, k).tried;
    TriedSharesFit(old(users[..]), users[..], total, k);
  }

  /** Its loops. */
  method BisectShares(users: array<Context>, total: int) returns (r: real, ghost k: nat)
    requires Weighted(users[..]) && Reachable(users[..], total)
    modifies users
    ensures SameUsers(old(users[..]), users[..]) && |old(users[..])| == users.Length
    ensures IsBound(old(users[..]), total, k) && r == Ratio(old(users[..]), total, k).upper
    ensures forall j :: IsBound(old(users[..]), total, j) ==> r == Ratio(old(users[..]), total, j).upper
    ensures forall i :: 0 <= i < users.Length ==>
              users[i].fairshare == Share(old(users[i]), Ratio(old(users[..]), total, k).tried)
  {
    hide Share, Enough, SumShares, Good;
    ghost var us := users[..];
    r, k := FindBound(users, total);
    var rl := 0.0;
    ghost var b := Bisect(us, total, TwoTo(k), 0);
    for n := 0 to 25
      invariant SameUsers(us, users[..])
      invariant b == Bisect(us, total, TwoTo(k), n) && b.lower == rl && b.upper == r
      invariant n > 0 ==> forall i :: 0 <= i < users.Length ==> users[i].fairshare == Share(us[i], b.tried)
    {
      var m := (rl + r) / 2.0;
      SameUsersSameShares(us, users[..], total, m);
      var enough := AssignShares(users, total, m);
      if enough { r := m; } else { rl := m; }
      b := Halve(us, total, b);
    }
    OnlyBound(us, total, k);
  }

  /** `scale_minshares`: afterwards the min shares fit the slots. */
  method ScaleMinshares(users: array<Context>, total: int)
    requires total >= 0
    modifies users
    ensures SumMinshares(users[..]) == Min(SumMinshares(old(users[..])), total as real)
    ensures forall i :: 0 <= i < users.Length ==>
              users[i] == if SumMinshares(old(users[..])) > total as real
                          then old(users[i]).(minshare := Times(old(users[i].minshare),
                                                                total as real / SumMinshares(old(users[..]))))
                          else old(users[i])
  {
    hide Times;
    ghost var us := users[..];
    var sum := 0.0;
    for i := 0 to users.Length
      invariant sum == SumMinshares(us[..i])
    {
      sum := sum + users[i].minshare;
      assert us[..i + 1][..i] == us[..i];
    }
    assert us[..users.Length] == us;
    if sum > total as real {
      var r := total as real / sum;
      for i := 0 to users.Length
        invariant forall j :: i <= j < users.Length ==> users[j] == us[j]
        invariant forall j :: 0 <= j < i ==> users[j] == us[j].(minshare := Times(us[j].minshare, r))
      {
        users[i] := users[i].(minshare := Times(users[i].minshare, r));
      }
      ScaledSum(us, users[..], r);
      ScaleBack(sum, total as real);
    }
  }

  lemma ScaleBack(sum: real, total: real)
    requires sum > 0.0
    ensures Times(sum, total / sum) == total
  {
  }

  lemma {:induction false} ScaledSum(cs: seq<Context>, cs': seq<Context>, r: real)
    requires |cs| == |cs'| && forall i :: 0 <= i < |cs| ==> cs'[i].minshare == Times(cs[i].minshare, r)
    ensures SumMinshares(cs') == Times(SumMinshares(cs), r)
  {
    hide Times;
    if cs != [] {
      var n := |cs| - 1;
      ScaledSum(cs[..n], cs'[..n], r);
      Distribute(SumMinshares(cs[..n]), cs[n].minshare, r);
    } else {
      ZeroTimes(r);
    }
  }
}
