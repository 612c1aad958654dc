/** Triangular probing (ulib/src/base/hash_open_prot.h): bucket `hash`, then 1 further, 2 further,
    3 further, .. modulo a power-of-two number of buckets. */
module Probing {
  import opened Common
  import Words

  ghost predicate IsPow2(n: nat) {
    exists k :: n == Pow2(k)
  }

  lemma {:induction false} AndSelf(x: nat)
    ensures And(x, x) == x
  {
    if x > 0 { AndSelf(x / 2); }
  }

  lemma HalfOfPow2(n: nat)
    requires n > 0
    ensures IsPow2(n) <==> n == 1 || (n % 2 == 0 && IsPow2(n / 2))
  {
    assert Pow2(0) == 1;
    if j: nat :| n == Pow2(j) {
      if j > 0 { assert n == 2 * Pow2(j - 1) && n / 2 == Pow2(j - 1); }
    }
    if n % 2 == 0 && IsPow2(n / 2) {
      var j: nat :| n / 2 == Pow2(j);
      assert n == Pow2(j + 1);
    }
  }

  lemma HalvesOfAnd(x: nat, y: nat)
    requires x > 0 && y > 0
    ensures And(x, y) == 2 * And(x / 2, y / 2) + (if x % 2 == 1 && y % 2 == 1 then 1 else 0)
  {
  }

  /** `n & (n - 1)` is zero exactly for the powers of two. */
  lemma {:induction false} PowerOfTwoTest(n: nat)
    requires n > 0
    ensures And(n, n - 1) == 0 <==> IsPow2(n)
  {
    HalfOfPow2(n);
    if n > 1 {
      HalvesOfAnd(n, n - 1);
      if n % 2 == 1 { AndSelf(n / 2); } else { PowerOfTwoTest(n / 2); }
    }
    hide IsPow2;
  }

  /** The distance walked after `j` steps. */
  ghost function Tri(j: nat): nat {
    if j == 0 then 0 else Tri(j - 1) + j
  }

  ghost function Probe(hash: nat, n: nat, j: nat): (i: nat)
    requires n > 0
    ensures i < n
  {
    (hash + Tri(j)) % n
  }

  lemma ModAdd(x: nat, y: nat, n: nat)
    requires n > 0
    ensures (x % n + y) % n == (x + y) % n
  {
    var r := x % n + y;
    var p, q := x / n, r / n;
    assert (p + q) * n == p * n + q * n;
    Division(x + y, p + q, r % n, n);
  }

  /** The loop's step `i = (i + ++step) & mask` walks the probe sequence. */
  lemma ProbeStep(hash: nat, n: nat, j: nat)
    requires n > 0
    ensures Probe(hash, n, j + 1) == (Probe(hash, n, j) + (j + 1)) % n
  {
    ModAdd(hash + Tri(j), j + 1, n);
  }

  lemma {:induction false} TriDifference(a: nat, b: nat)
    requires a <= b
    ensures 2 * (Tri(b) - Tri(a)) == (b - a) * (a + b + 1)
    decreases b
  {
    if a < b {
      TriDifference(a, b - 1);
      assert (b - 1 - a) * (a + b) + 2 * b == (b - a) * (a + b + 1);
    } else {
      assert (b - a) * (a + b + 1) == 0;
    }
  }

  /** After `j` steps the walk is the `j`th triangular number further on. */
  lemma ProbeIsTriangular(hash: nat, n: nat, j: nat)
    requires n > 0
    ensures Probe(hash, n, j) == (hash + j * (j + 1) / 2) % n
  {
    TriDifference(0, j);
    assert 2 * Tri(j) == j * (j + 1);
  }

  /** An odd factor contributes nothing to divisibility by a power of two. */
  lemma {:induction false} OddFactor(o: nat, x: nat, m: nat, k: nat) returns (y: nat)
    requires o % 2 == 1 && o * x == m * Pow2(k)
    ensures x == y * Pow2(k)
  {
    if k == 0 {
      y := x;
    } else {
      var h := Pow2(k - 1);
      assert m * (2 * h) == 2 * (m * h);
      EvenCofactor(o, x, m * h);
      var z := x / 2;
      assert o * (2 * z) == 2 * (o * z);
      y := OddFactor(o, z, m, k - 1);
      assert 2 * (y * h) == y * (2 * h);
    }
  }

  lemma EvenCofactor(o: nat, x: nat, h: nat)
    requires o % 2 == 1 && o * x == 2 * h
    ensures x % 2 == 0
  {
    var p, q, r := o / 2, x / 2, x % 2;
    assert o * x == (2 * p + 1) * (2 * q + r) == 2 * (2 * p * q + p * r + q) + r;
  }

  /** Walks that end a multiple of 2^k apart differ in length by too much, or are too long. */
  lemma CongruentWalks(k: nat, a: nat, b: nat, m: nat)
    requires a < b && Tri(b) - Tri(a) == m * Pow2(k)
    ensures b - a >= Pow2(k + 1) || a + b + 1 >= Pow2(k + 1)
  {
    hide *;
    TriDifference(a, b);
    DoubledMultiple(m, k);
    DifferentParity(a, b);
    OneFactorIsOdd(b - a, a + b + 1, m, k + 1);
  }

  lemma DoubledMultiple(m: nat, k: nat)
    ensures 2 * (m * Pow2(k)) == m * Pow2(k + 1)
  {
    var p := Pow2(k);
    assert Pow2(k + 1) == 2 * p;
    hide Pow2;
    assert m * (2 * p) == 2 * (m * p);
  }

  lemma DifferentParity(a: nat, b: nat)
    requires a < b
    ensures (b - a) % 2 != (a + b + 1) % 2
  {
    assert a + b + 1 == (b - a) + 2 * a + 1;
  }

  lemma OneFactorIsOdd(d: nat, e: nat, m: nat, k: nat)
    requires d > 0 && e > 0 && d % 2 != e % 2 && d * e == m * Pow2(k)
    ensures d >= Pow2(k) || e >= Pow2(k)
  {
    if d % 2 == 1 {
      var z := OddFactor(d, e, m, k);
      PositiveMultiple(e, z, Pow2(k));
    } else {
      assert e * d == d * e;
      var z := OddFactor(e, d, m, k);
      PositiveMultiple(d, z, Pow2(k));
    }
  }

  /** No bucket is probed twice in the first `n` probes. */
  lemma ProbesAreDistinct(hash: nat, k: nat, a: nat, b: nat)
    requires a < b < Pow2(k)
    ensures Probe(hash, Pow2(k), a) != Probe(hash, Pow2(k), b)
  {
    var n, x, y := Pow2(k), hash + Tri(a), hash + Tri(b);
    if x % n == y % n {
      TriGrows(a, b);
      var m := QuotientGap(x, y, n);
      CongruentWalks(k, a, b, m);
    }
  }

  lemma {:induction false} TriGrows(a: nat, b: nat)
    requires a < b
    ensures Tri(a) < Tri(b)
  {
    if a + 1 < b { TriGrows(a, b - 1); }
  }

  lemma QuotientGap(x: nat, y: nat, n: nat) returns (m: nat)
    requires n > 0 && x < y && x % n == y % n
    ensures y - x == m * n
  {
    var d := y / n - x / n;
    assert x == (x / n) * n + x % n && y == (y / n) * n + y % n;
    assert d * n == (y / n) * n - (x / n) * n;
    assert d < 0 ==> d * n < 0;
    m := d;
  }

  lemma PositiveMultiple(x: nat, z: nat, n: nat)
    requires x == z * n && x > 0
    ensures x >= n
  {
    assert z > 0 ==> z * n >= n;
  }

  /** The buckets reached by the first `j` probes. */
  ghost function Visited(hash: nat, n: nat, j: nat): set<nat>
    requires n > 0
  {
    if j == 0 then {} else Visited(hash, n, j - 1) + {Probe(hash, n, j - 1)}
  }

  lemma {:induction false} VisitedIsProbed(hash: nat, n: nat, j: nat, i: nat)
    requires n > 0 && i in Visited(hash, n, j)
    ensures exists a :: 0 <= a < j && Probe(hash, n, a) == i
  {
    if i != Probe(hash, n, j - 1) { VisitedIsProbed(hash, n, j - 1, i); }
  }

  lemma {:induction false} VisitedCount(hash: nat, k: nat, j: nat)
    requires j <= Pow2(k)
    ensures |Visited(hash, Pow2(k), j)| == j
    ensures forall i :: i in Visited(hash, Pow2(k), j) ==> i < Pow2(k)
  {
    var n := Pow2(k);
    if j > 0 {
      VisitedCount(hash, k, j - 1);
      if Probe(hash, n, j - 1) in Visited(hash, n, j - 1) {
        VisitedIsProbed(hash, n, j - 1, Probe(hash, n, j - 1));
        var a :| 0 <= a < j - 1 && Probe(hash, n, a) == Probe(hash, n, j - 1);
        ProbesAreDistinct(hash, k, a, j - 1);
      }
    }
  }

  lemma FullSet(s: set<nat>, n: nat, i: nat)
    requires |s| == n && i < n && forall x :: x in s ==> x < n
    ensures i in s
  {
    if i !in s { Pigeonhole(s + {i}, n); }
  }

  /** Triangular probing of a power-of-two table visits every bucket within `n` probes. */
  lemma EveryBucketIsProbed(hash: nat, n: nat, i: nat)
    requires IsPow2(n) && i < n
    ensures exists j :: 0 <= j < n && Probe(hash, n, j) == i
  {
    var k :| n == Pow2(k);
    VisitedCount(hash, k, n);
    FullSet(Visited(hash, n, n), n, i);
    VisitedIsProbed(hash, n, n, i);
  }

  /** The walk does not come back to its first bucket before it has seen all of them. */
  lemma NoEarlyReturn(hash: nat, n: nat, j: nat)
    requires IsPow2(n) && 0 < j < n
    ensures Probe(hash, n, j) != Probe(hash, n, 0)
  {
    var k :| n == Pow2(k);
    ProbesAreDistinct(hash, k, 0, j);
  }

  // ---------- The walk as the code takes it ----------

  /** Masked with the number of buckets less one instead of reduced modulo it. */
  ghost function Walk(hash: nat, n: nat, j: nat): nat
    requires n > 0
  {
    if j == 0 then And(hash, n - 1) else And(Walk(hash, n, j - 1) + j, n - 1)
  }

  lemma MaskIsModulo(x: nat, n: nat)
    requires IsPow2(n)
    ensures n > 0 && And(x, n - 1) == x % n
  {
    var k :| n == Pow2(k);
    Words.AndOnes(x, k);
  }

  /** For a power of two the two walks are the same. */
  lemma {:induction false} WalkIsProbe(hash: nat, n: nat, j: nat)
    requires IsPow2(n) && n > 0
    ensures Walk(hash, n, j) == Probe(hash, n, j)
  {
    hide *;
    WalkUnfolds(hash, n, j);
    if j == 0 {
      FirstIsMasked(hash, n);
    } else {
      WalkIsProbe(hash, n, j - 1);
      NextIsMasked(hash, n, j - 1);
    }
  }

  lemma WalkUnfolds(hash: nat, n: nat, j: nat)
    requires n > 0
    ensures Walk(hash, n, j) == if j == 0 then And(hash, n - 1) else And(Walk(hash, n, j - 1) + j, n - 1)
  {
    hide And;
  }

  lemma FirstIsMasked(hash: nat, n: nat)
    requires IsPow2(n) && n > 0
    ensures Probe(hash, n, 0) == And(hash, n - 1)
  {
    assert hash + Tri(0) == hash;
    hide IsPow2, And, Tri;
    MaskIsModulo(hash, n);
  }

  lemma NextIsMasked(hash: nat, n: nat, j: nat)
    requires IsPow2(n) && n > 0
    ensures Probe(hash, n, j + 1) == And(Probe(hash, n, j) + (j + 1), n - 1)
  {
    hide *;
    ProbeStep(hash, n, j);
    MaskIsModulo(Probe(hash, n, j) + (j + 1), n);
  }

  lemma {:induction false} AndTwice(x: nat, m: nat)
    ensures And(And(x, m), m) == And(x, m)
  {
    if x > 0 && m > 0 {
      AndTwice(x / 2, m / 2);
      if And(x, m) > 0 { HalvesOfAnd(And(x, m), m); }
    }
  }

  /** The walk only ever visits numbers whose bits are all in the mask. */
  lemma WalkIsMasked(hash: nat, n: nat, j: nat)
    requires n > 0
    ensures And(Walk(hash, n, j), n - 1) == Walk(hash, n, j)
  {
    AndTwice(if j == 0 then hash else Walk(hash, n, j - 1) + j, n - 1);
    hide And;
  }

  /** For any other size there is a bucket with a bit outside the mask. */
  lemma {:induction false} UnmaskedBucket(n: nat) returns (i: nat)
    requires n > 0 && !IsPow2(n)
    ensures i < n && And(i, n - 1) != i
  {
    HalfOfPow2(n);
    if n % 2 == 1 {
      i := 1;
      HalvesOfAnd(1, n - 1);
    } else {
      var h := UnmaskedBucket(n / 2);
      i := 2 * h;
      if h > 0 { HalvesOfAnd(i, n - 1); }
    }
    hide IsPow2;
  }

  /** The walk of `hash` comes to bucket `i`. */
  ghost predicate Visits(hash: nat, n: nat, i: nat)
    requires n > 0
  {
    exists j: nat :: Walk(hash, n, j) == i
  }

  /** Bucket `i` is on the walk of no hash. */
  ghost predicate Missed(n: nat, i: nat)
    requires n > 0
  {
    i < n && forall hash: nat :: !Visits(hash, n, i)
  }

  lemma NeverVisited(hash: nat, n: nat, i: nat)
    requires n > 0 && And(i, n - 1) != i
    ensures !Visits(hash, n, i)
  {
    forall j: nat
      ensures Walk(hash, n, j) != i
    {
      WalkIsMasked(hash, n, j);
    }
  }

  lemma AlwaysVisited(hash: nat, n: nat, i: nat)
    requires IsPow2(n) && i < n
    ensures Visits(hash, n, i)
  {
    EveryBucketIsProbed(hash, n, i);
    var j :| 0 <= j < n && Probe(hash, n, j) == i;
    WalkIsProbe(hash, n, j);
  }

  /** The walk of every hash visits every bucket if and only if their number is a power of two, which is
      what `n & (n - 1)` tests; otherwise some bucket is on the walk of no hash at all. */
  lemma WalkReachesAllExactlyWhen(n: nat)
    requires n > 0
    ensures (forall hash: nat, i: nat :: i < n ==> Visits(hash, n, i)) <==> IsPow2(n)
    ensures !IsPow2(n) ==> exists i: nat :: Missed(n, i)
  {
    if IsPow2(n) {
      forall hash: nat, i: nat | i < n
        ensures Visits(hash, n, i)
      {
        AlwaysVisited(hash, n, i);
      }
    } else {
      var i := UnmaskedBucket(n);
      forall hash: nat
        ensures !Visits(hash, n, i)
      {
        NeverVisited(hash, n, i);
      }
      assert !Visits(0, n, i) && Missed(n, i);
    }
  }

  /** Among nine buckets the walk only ever visits the first and the last. */
  lemma NineBuckets(hash: nat, j: nat)
    ensures Walk(hash, 9, j) in {0, 8}
  {
    var x := if j == 0 then hash else Walk(hash, 9, j - 1) + j;
    assert Walk(hash, 9, j) == And(x, 8);
    MaskedByEight(x);
  }

  lemma MaskedByEight(x: nat)
    ensures And(x, 8) in {0, 8}
  {
    assert And(x / 8, 1) in {0, 1};
    assert And(x / 4, 2) == 2 * And(x / 8, 1);
    assert And(x / 2, 4) == 2 * And(x / 4, 2);
  }
}
