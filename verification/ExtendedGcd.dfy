/** Euclid's algorithm on 64-bit words (ulib/src/base/math_gcd.c). */
module ExtendedGcd {
  import opened Common

  const TWO_63: int := 0x8000_0000_0000_0000
  const TWO_64: int := 0x1_0000_0000_0000_0000

  newtype Word = x: int | 0 <= x < 0x1_0000_0000_0000_0000

  /** An integer kept in a `long`: only its residue survives. */
  function Long(v: int): int { (v + TWO_63) % TWO_64 - TWO_63 }

  ghost predicate Divides(d: nat, n: nat) { exists k: nat :: n == Times(d, k) }

  function Times(d: int, k: int): int { d * k }

  function Gcd(a: nat, b: nat): nat
    decreases b
  {
    if b == 0 then a else Gcd(b, a % b)
  }

  lemma DividesRemainder(d: nat, a: nat, b: nat)
    requires b > 0
    ensures Divides(d, a) && Divides(d, b) <==> Divides(d, b) && Divides(d, a % b)
  {
    var q, r := a / b, a % b;
    assert a == q * b + r;
    hide Divides;
    if Divides(d, b) && Divides(d, a) { DividesDifference(d, a, b, q, r); }
    if Divides(d, b) && Divides(d, r) { DividesSum(d, r, b, q, a); }
  }

  lemma DividesDifference(d: nat, a: nat, b: nat, q: nat, r: nat)
    requires Divides(d, a) && Divides(d, b) && a == q * b + r
    ensures Divides(d, r)
  {
    var j: nat, k: nat :| a == Times(d, j) && b == Times(d, k);
    Factor(d, j, q, k);
    hide Times;
    assert r == Times(d, if j >= q * k then j - q * k else 0);
  }

  lemma Factor(d: nat, j: nat, q: nat, k: nat)
    ensures Times(d, j) - q * Times(d, k) == Times(d, j - q * k)
    ensures j < q * k ==> Times(d, j - q * k) <= 0
    ensures Times(d, 0) == 0
  {
    assert q * (d * k) == d * (q * k);
    assert d * j - d * (q * k) == d * (j - q * k);
  }

  lemma DividesSum(d: nat, r: nat, b: nat, q: nat, a: nat)
    requires Divides(d, r) && Divides(d, b) && a == q * b + r
    ensures Divides(d, a)
  {
    var j: nat, k: nat :| r == Times(d, j) && b == Times(d, k);
    assert q * (d * k) + d * j == d * (q * k + j);
    assert a == Times(d, q * k + j);
  }

  /** It divides both numbers, and every common divisor divides it. */
  lemma {:induction false} GcdIsGreatest(a: nat, b: nat)
    ensures Divides(Gcd(a, b), a) && Divides(Gcd(a, b), b)
    ensures forall d: nat :: Divides(d, a) && Divides(d, b) ==> Divides(d, Gcd(a, b))
    decreases b
  {
    if b == 0 {
      assert a == Times(a, 1) && 0 == Times(a, 0);
    } else {
      GcdIsGreatest(b, a % b);
      forall d: nat
        ensures Divides(d, a) && Divides(d, b) <==> Divides(d, b) && Divides(d, a % b)
      {
        DividesRemainder(d, a, b);
      }
    }
  }

  /** `gcd`. */
  method ComputeGcd(a0: Word, b0: Word) returns (g: Word)
    ensures g as nat == Gcd(a0 as nat, b0 as nat)
  {
    var a, b := a0, b0;
    while b != 0
      invariant Gcd(a as nat, b as nat) == Gcd(a0 as nat, b0 as nat)
      decreases b
    {
      var r := a % b;
      a := b;
      b := r;
    }
    return a;
  }

  // ---------- The extended algorithm, over the integers ----------

  datatype State = State(a: nat, b: nat, x1: int, x2: int, y1: int, y2: int)

  function Start(a: nat, b: nat): State { State(a, b, 1, 0, 0, 1) }

  function Quotient(a: nat, b: nat): nat
    requires b != 0
  {
    a / b
  }

  function Step(s: State): State
    requires s.b != 0
  {
    var q := Quotient(s.a, s.b);
    State(s.b, Remainder(s.a, s.b), s.x2, s.x1 - Times(q, s.x2), s.y2, s.y1 - Times(q, s.y2))
  }

  /** The state after `n` turns, or at the end if there are fewer. */
  function After(a: nat, b: nat, n: nat): State {
    if n == 0 then Start(a, b) else
      var s := After(a, b, n - 1);
      if s.b == 0 then s else Step(s)
  }

  function Abs(x: int): nat { if x < 0 then -x else x }

  /** The coefficients' signs alternate. */
  ghost predicate Alternate(s: State) {
    (s.x1 >= 0 && s.x2 <= 0 && s.y1 <= 0 && s.y2 >= 0) || (s.x1 <= 0 && s.x2 >= 0 && s.y1 >= 0 && s.y2 <= 0)
  }

  ghost predicate Inv(a: nat, b: nat, s: State) {
    && Alternate(s)
    && Times(s.a, Abs(s.y2)) + Times(s.b, Abs(s.y1)) == a
    && Times(s.a, Abs(s.x2)) + Times(s.b, Abs(s.x1)) == b
    && s.a == Times(a, s.x1) + Times(b, s.y1)
    && s.b == Times(a, s.x2) + Times(b, s.y2)
    && Gcd(s.a, s.b) == Gcd(a, b)
    && (s == Start(a, b) || s.a > s.b)
    && Small(s.x1, b, Gcd(a, b)) && Small(s.y1, a, Gcd(a, b))
  }

  /** At most one, or at most `n / (2 * g)`. */
  ghost predicate Small(x: int, n: nat, g: nat) { Abs(x) <= 1 || (g > 0 && Times(2 * g, Abs(x)) <= n) }

  lemma Distribute(q: int, x: int, y: int, z: int)
    ensures Times(x, y + Times(q, z)) == Times(x, y) + Times(Times(x, q), z)
    ensures Times(x, y - Times(q, z)) == Times(x, y) - Times(Times(x, q), z)
  {
    assert x * (q * z) == (x * q) * z;
  }

  lemma DistributeLeft(x: int, y: int, z: int)
    ensures Times(x - y, z) == Times(x, z) - Times(y, z)
  {
  }

  lemma AbsStep(q: nat, x1: int, x2: int)
    requires (x1 >= 0 && x2 <= 0) || (x1 <= 0 && x2 >= 0)
    ensures Abs(x1 - Times(q, x2)) == Abs(x1) + Times(q, Abs(x2))
    ensures (x1 >= 0 && x2 <= 0 ==> x1 - Times(q, x2) >= 0) && (x1 <= 0 && x2 >= 0 ==> x1 - Times(q, x2) <= 0)
  {
    assert x2 <= 0 ==> q * x2 <= 0 && q * (-x2) == -(q * x2);
    assert x2 >= 0 ==> q * x2 >= 0;
  }

  /** One of the two sums the algorithm preserves. */
  lemma SumStep(a: nat, b: nat, x1: int, x2: int)
    requires b > 0 && ((x1 >= 0 && x2 <= 0) || (x1 <= 0 && x2 >= 0))
    ensures Times(b, Abs(x1 - Times(Quotient(a, b), x2))) + Times(Remainder(a, b), Abs(x2)) ==
            Times(a, Abs(x2)) + Times(b, Abs(x1))
  {
    var q := Quotient(a, b);
    AbsStep(q, x1, x2);
    Distribute(q, b, Abs(x1), Abs(x2));
    assert a % b == a - b * q;
    DistributeLeft(a, Times(b, q), Abs(x2));
  }

  /** The remainder stays a combination of the two numbers. */
  lemma CombinationStep(a: int, b: int, q: int, x1: int, x2: int, y1: int, y2: int, u: int, v: int)
    requires u == Times(a, x1) + Times(b, y1) && v == Times(a, x2) + Times(b, y2)
    ensures u - Times(q, v) == Times(a, x1 - Times(q, x2)) + Times(b, y1 - Times(q, y2))
  {
    Distribute(q, a, x1, x2);
    Distribute(q, b, y1, y2);
    assert q * (a * x2 + b * y2) == (a * q) * x2 + (b * q) * y2;
  }

  /** A number greater than another, both multiples of `g`, is at least `2 * g`. */
  lemma TwiceGcd(a: nat, b: nat)
    requires a > b > 0
    ensures 0 < 2 * Gcd(a, b) <= a
  {
    var g := Gcd(a, b);
    GcdIsGreatest(a, b);
    var j: nat, k: nat :| a == Times(g, j) && b == Times(g, k);
    assert g > 0 by { assert g == 0 ==> g * k == 0; }
    assert k >= 1 by { assert k == 0 ==> g * k == 0; }
    assert j <= k ==> g * j <= g * k;
    assert g * j >= g * 2;
  }

  lemma SmallStep(n: nat, u: nat, x: int, y: int, w: nat, g: nat)
    requires Times(u, Abs(x)) + Times(w, Abs(y)) == n && 0 < 2 * g <= u
    ensures Small(x, n, g)
  {
    assert w * Abs(y) >= 0;
    assert (2 * g) * Abs(x) <= u * Abs(x);
  }

  lemma StepKeepsInv(a: nat, b: nat, s: State)
    requires Inv(a, b, s) && s.b != 0
    ensures Inv(a, b, Step(s))
  {
    var q, g := Quotient(s.a, s.b), Gcd(a, b);
    DivisionFacts(s.a, s.b);
    assert Small(0, b, g) && Small(1, a, g);
    hide Times, Small, Gcd, Abs, Quotient, Remainder;
    AbsStep(q, s.x1, s.x2);
    AbsStep(q, s.y1, s.y2);
    SumStep(s.a, s.b, s.x1, s.x2);
    SumStep(s.a, s.b, s.y1, s.y2);
    CombinationStep(a, b, q, s.x1, s.x2, s.y1, s.y2, s.a, s.b);
    if s != Start(a, b) {
      TwiceGcd(s.a, s.b);
      SmallStep(b, s.a, s.x2, s.x1, s.b, g);
      SmallStep(a, s.a, s.y2, s.y1, s.b, g);
    }
  }

  lemma DivisionFacts(a: nat, b: nat)
    requires b > 0
    ensures Remainder(a, b) == a - Times(Quotient(a, b), b) && Gcd(a, b) == Gcd(b, Remainder(a, b))
  {
  }

  lemma {:induction false} AfterKeepsInv(a: nat, b: nat, n: nat)
    ensures Inv(a, b, After(a, b, n))
  {
    if n > 0 {
      AfterKeepsInv(a, b, n - 1);
      var s := After(a, b, n - 1);
      if s.b != 0 { StepKeepsInv(a, b, s); }
    }
  }

  /** At the end the first coefficients combine the two numbers to their greatest common divisor. */
  lemma BezoutAtEnd(a: nat, b: nat, n: nat)
    requires After(a, b, n).b == 0
    ensures var s := After(a, b, n);
            && s.a == Gcd(a, b) && Gcd(a, b) == Times(a, s.x1) + Times(b, s.y1)
            && Small(s.x1, b, Gcd(a, b)) && Small(s.y1, a, Gcd(a, b))
  {
    AfterKeepsInv(a, b, n);
  }

  lemma SummandBound(u: nat, v: nat, x: nat, n: nat)
    requires u > 0 && Times(u, x) + v == n
    ensures x <= n
  {
    assert u * x >= x;
  }

  lemma SmallBound(x: int, n: nat, g: nat)
    requires Small(x, n, g)
    ensures Abs(x) <= 1 || 2 * Abs(x) <= n
  {
    if Abs(x) > 1 { assert (2 * g) * Abs(x) >= 2 * Abs(x); }
  }

  /** Below 2^63 no coefficient ever leaves the range of a `long`. */
  lemma NoCoefficientOverflows(a: nat, b: nat, n: nat)
    requires 0 < a < TWO_63 && b < TWO_63
    ensures var s := After(a, b, n);
            && Long(s.x1) == s.x1 && Long(s.x2) == s.x2 && Long(s.y1) == s.y1 && Long(s.y2) == s.y2
  {
    AfterKeepsInv(a, b, n);
    var s := After(a, b, n);
    SmallBound(s.x1, b, Gcd(a, b));
    SmallBound(s.y1, a, Gcd(a, b));
    TimesNotNegative(s.b, Abs(s.x1));
    TimesNotNegative(s.b, Abs(s.y1));
    NotAllZero(a, b, n);
    hide Times, Small, After, Gcd;
    SummandBound(s.a, Times(s.b, Abs(s.x1)), Abs(s.x2), b);
    SummandBound(s.a, Times(s.b, Abs(s.y1)), Abs(s.y2), a);
  }

  lemma TimesNotNegative(x: nat, y: nat)
    ensures Times(x, y) >= 0
  {
  }

  lemma {:induction false} NotAllZero(a: nat, b: nat, n: nat)
    requires a > 0
    ensures After(a, b, n).a > 0
  {
    if n > 0 { NotAllZero(a, b, n - 1); }
  }

  // ---------- The extended algorithm, on words ----------

  lemma LongOfSum(v: int, k: int)
    ensures Long(v + k * TWO_64) == Long(v)
  {
    assert (v + k * TWO_64 + TWO_63) % TWO_64 == (v + TWO_63) % TWO_64;
  }

  lemma LongExact(v: int)
    requires -TWO_63 <= v < TWO_63
    ensures Long(v) == v
  {
  }

  /** The residue of a turn depends only on the residues before it. */
  lemma LongStep(u: int, v: int, q: int)
    ensures Long(Long(u) - Times(q, Long(v))) == Long(u - Times(q, v))
  {
    var i, j := (u + TWO_63) / TWO_64, (v + TWO_63) / TWO_64;
    assert Long(u) == u - i * TWO_64 && Long(v) == v - j * TWO_64;
    assert q * (v - j * TWO_64) == q * v - (q * j) * TWO_64;
    assert Long(u) - q * Long(v) == (u - q * v) + (q * j - i) * TWO_64;
    LongOfSum(u - q * v, q * j - i);
  }

  method Divide(a: Word, b: Word) returns (q: Word, r: Word)
    requires b != 0
    ensures q as nat == Quotient(a as nat, b as nat) && r as nat == Remainder(a as nat, b as nat)
  {
    q, r := a / b, a % b;
  }

  /** `egcd`: for all 64-bit numbers the coefficients returned are exact. */
  method Egcd(a0: Word, b0: Word) returns (x: int, y: int)
    ensures Times(a0 as int, x) + Times(b0 as int, y) == Gcd(a0 as nat, b0 as nat)
    ensures Small(x, b0 as nat, Gcd(a0 as nat, b0 as nat)) && Small(y, a0 as nat, Gcd(a0 as nat, b0 as nat))
  {
    var a, b := a0, b0;
    var x1, x2, y1, y2 := 1, 0, 0, 1;
    ghost var m, k := a0 as nat, b0 as nat;
    ghost var n: nat, s := 0, Start(m, k);
    while b != 0
      invariant s == After(m, k, n) && s.a == a as nat && s.b == b as nat
      invariant x1 == Long(s.x1) && x2 == Long(s.x2) && y1 == Long(s.y1) && y2 == Long(s.y2)
      decreases b
    {
      hide *;
      Turn(m, k, n);
      var q, r := Divide(a, b);
      a := b;
      b := r;
      var x3 := Long(x1 - Times(q as int, x2));
      x1 := x2;
      x2 := x3;
      var y3 := Long(y1 - Times(q as int, y2));
      y1 := y2;
      y2 := y3;
      n, s := n + 1, Step(s);
    }
    BezoutAtEnd(m, k, n);
    ExactAtEnd(m, k, n);
    x, y := x1, y1;
    hide Long, After, Gcd, Small;
  }

  /** A turn on words. */
  lemma Turn(a: nat, b: nat, n: nat)
    requires After(a, b, n).b != 0
    ensures var s, q := After(a, b, n), Quotient(After(a, b, n).a, After(a, b, n).b);
            && After(a, b, n + 1) == Step(s)
            && Step(s).a == s.b && Step(s).b == Remainder(s.a, s.b) && Step(s).x1 == s.x2 && Step(s).y1 == s.y2
            && Long(Long(s.x1) - Times(q, Long(s.x2))) == Long(Step(s).x2)
            && Long(Long(s.y1) - Times(q, Long(s.y2))) == Long(Step(s).y2)
  {
    var s := After(a, b, n);
    LongStep(s.x1, s.x2, Quotient(s.a, s.b));
    LongStep(s.y1, s.y2, Quotient(s.a, s.b));
    hide Long, Times;
  }

  lemma ExactAtEnd(a: nat, b: nat, n: nat)
    requires a < TWO_64 && b < TWO_64 && After(a, b, n).b == 0
    ensures Long(After(a, b, n).x1) == After(a, b, n).x1 && Long(After(a, b, n).y1) == After(a, b, n).y1
  {
    var s := After(a, b, n);
    BezoutAtEnd(a, b, n);
    SmallBound(s.x1, b, Gcd(a, b));
    SmallBound(s.y1, a, Gcd(a, b));
    LongExact(s.x1);
    LongExact(s.y1);
    hide *;
  }

  lemma InverseModulo(m: nat, b: nat, t: int, s: int, r: int, g: nat)
    requires m > 0 && m * t + b * s == g && (r == s || r == s + m)
    ensures (r * b) % m == g % m
  {
    var k := if r == s then -t else b - t;
    assert r * b == g + k * m by {
      assert (s + m) * b == s * b + m * b;
      assert (b - t) * m == b * m - t * m && (-t) * m == -(t * m);
    }
    assert g == (g / m) * m + g % m;
    assert (g / m + k) * m == (g / m) * m + k * m;
    Division(r * b, g / m + k, g % m, m);
  }

  lemma GcdAtMost(m: nat, b: nat)
    requires m > 0
    ensures 0 < Gcd(m, b) <= m
  {
    GcdIsGreatest(m, b);
    var g := Gcd(m, b);
    var k: nat :| m == Times(g, k);
    assert g == 0 ==> g * k == 0;
    assert k == 0 ==> g * k == 0;
    assert k >= 1 ==> g * k >= g;
  }

  /** `invert`: a number below `m` that is an inverse of `b` modulo `m` exactly if they are coprime. */
  method Invert(m: Word, b: Word) returns (r: Word)
    ensures m >= 2 ==> r < m
    ensures m >= 2 ==> (r as nat * b as nat) % m as nat == Gcd(m as nat, b as nat) % m as nat
    ensures m >= 2 ==> ((r as nat * b as nat) % m as nat == 1 <==> Gcd(m as nat, b as nat) == 1)
  {
    var t, s := Egcd(m, b);
    SmallBound(s, m as nat, Gcd(m as nat, b as nat));
    var v := if s < 0 then (m as int + s) % TWO_64 else s % TWO_64;
    r := v as Word;
    if m >= 2 {
      hide Gcd, Small, Abs;
      InverseModulo(m as nat, b as nat, t, s, r as int, Gcd(m as nat, b as nat));
      GcdAtMost(m as nat, b as nat);
      OneModulo(Gcd(m as nat, b as nat), m as nat);
    }
  }

  lemma OneModulo(g: nat, m: nat)
    requires 0 < g <= m && m >= 2
    ensures g % m == 1 <==> g == 1
  {
  }
}
