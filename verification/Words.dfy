/** Machine words as numbers, and their bits (ulib/src/base/math_bit.h). */
module Words {
  import opened Common

  const BITS: nat := 64

  type Word = w: nat | w < 0x1_0000_0000_0000_0000

  /** Bit `i`, counted from the least significant one. */
  function Bit(w: nat, i: nat): bool {
    if i == 0 then w % 2 == 1 else Bit(w / 2, i - 1)
  }

  /** The bitwise `|` of two numbers. */
  function Or(x: nat, y: nat): nat {
    if x == 0 then y else if y == 0 then x
    else 2 * Or(x / 2, y / 2) + (if x % 2 == 1 || y % 2 == 1 then 1 else 0)
  }

  /** The number whose lowest `n` bits are set: `~0UL >> (64 - n)`. */
  function Ones(n: nat): nat { Pow2(n) - 1 }

  lemma WordSize()
    ensures Pow2(BITS) == 0x1_0000_0000_0000_0000
  {
    assert Pow2(8) == 256;
    assert Pow2(16) == 0x1_0000;
    assert Pow2(24) == 0x100_0000;
    assert Pow2(32) == 0x1_0000_0000;
    assert Pow2(40) == 0x100_0000_0000;
    assert Pow2(48) == 0x1_0000_0000_0000;
    assert Pow2(56) == 0x100_0000_0000_0000;
  }

  lemma {:induction false} BitOfZero(i: nat)
    ensures !Bit(0, i)
  {
    if i > 0 { BitOfZero(i - 1); }
  }

  lemma {:induction false} BitOfAnd(x: nat, y: nat, i: nat)
    ensures Bit(And(x, y), i) <==> Bit(x, i) && Bit(y, i)
  {
    if x == 0 || y == 0 {
      BitOfZero(i);
    } else if i > 0 {
      BitOfAnd(x / 2, y / 2, i - 1);
    }
  }

  lemma {:induction false} BitOfOr(x: nat, y: nat, i: nat)
    ensures Bit(Or(x, y), i) <==> Bit(x, i) || Bit(y, i)
  {
    if x == 0 || y == 0 {
      BitOfZero(i);
    } else if i > 0 {
      BitOfOr(x / 2, y / 2, i - 1);
    }
  }

  lemma {:induction false} OrBelow(x: nat, y: nat, n: nat)
    requires x < Pow2(n) && y < Pow2(n)
    ensures Or(x, y) < Pow2(n)
  {
    if n > 0 { OrBelow(x / 2, y / 2, n - 1); }
  }

  lemma {:induction false} AndBelow(x: nat, y: nat)
    ensures And(x, y) <= x && And(x, y) <= y
  {
    if x > 0 && y > 0 { AndBelow(x / 2, y / 2); }
  }

  /** Subtracting from all ones flips every bit. */
  lemma {:induction false} BitOfComplement(w: nat, n: nat, i: nat)
    requires w < Pow2(n) && i < n
    ensures Bit(Ones(n) - w, i) <==> !Bit(w, i)
  {
    assert Pow2(n) == 2 * Pow2(n - 1);
    if i > 0 {
      BitOfComplement(w / 2, n - 1, i - 1);
      assert (Ones(n) - w) / 2 == Ones(n - 1) - w / 2;
    }
  }

  lemma {:induction false} BitOfOnes(n: nat, i: nat)
    ensures Bit(Ones(n), i) <==> i < n
  {
    if n == 0 {
      BitOfZero(i);
    } else if i > 0 {
      assert Ones(n) / 2 == Ones(n - 1);
      BitOfOnes(n - 1, i - 1);
    }
  }

  lemma {:induction false} OnesBelow(n: nat, m: nat)
    requires n <= m
    ensures Ones(n) <= Ones(m)
  {
    if n < m { OnesBelow(n, m - 1); }
  }

  lemma HalfRemainder(x: nat, p: nat)
    requires p > 0
    ensures Remainder(x, 2 * p) == 2 * Remainder(x / 2, p) + x % 2
  {
    var q, r := (x / 2) / p, (x / 2) % p;
    assert x / 2 == q * p + r && q * p + q * p == q * (2 * p);
    Division(x, q, 2 * r + x % 2, 2 * p);
  }

  /** Masking with `2^k - 1` is taking the remainder by `2^k`. */
  lemma {:induction false} AndOnes(x: nat, k: nat)
    ensures And(x, Ones(k)) == Remainder(x, Pow2(k))
  {
    hide *;
    if k == 0 || x == 0 {
      MaskedNothing(x, k);
    } else {
      HalvedMask(x, k);
      AndOnes(x / 2, k - 1);
      HalfRemainder(x, Pow2(k - 1));
    }
  }

  lemma MaskedNothing(x: nat, k: nat)
    requires k == 0 || x == 0
    ensures And(x, Ones(k)) == Remainder(x, Pow2(k)) == 0
  {
    if k > 0 { hide Pow2; }
  }

  lemma HalvedMask(x: nat, k: nat)
    requires x > 0 && k > 0
    ensures And(x, Ones(k)) == 2 * And(x / 2, Ones(k - 1)) + x % 2
    ensures Pow2(k) == 2 * Pow2(k - 1)
  {
    assert Ones(k) / 2 == Ones(k - 1) && Ones(k) % 2 == 1;
  }

  // ---------- Words ----------

  /** `~w`. */
  function Not(w: Word): Word { 0xFFFF_FFFF_FFFF_FFFF - w }

  /** `~0UL >> (64 - n)`: the lowest `n` bits. */
  function Under(n: nat): (w: Word)
    requires n <= BITS
  {
    WordSize();
    OnesBelow(n, BITS);
    Ones(n)
  }

  /** `~0UL << n`: all the others. */
  function From(n: nat): Word
    requires n <= BITS
  {
    Not(Under(n))
  }

  function AndWord(x: Word, y: Word): Word {
    AndBelow(x, y);
    And(x, y)
  }

  function OrWord(x: Word, y: Word): Word {
    WordSize();
    OrBelow(x, y, BITS);
    Or(x, y)
  }

  lemma BitOfNot(w: Word, i: nat)
    requires i < BITS
    ensures Bit(Not(w), i) <==> !Bit(w, i)
  {
    WordSize();
    BitOfComplement(w, BITS, i);
  }

  lemma BitOfMasks(n: nat, i: nat)
    requires n <= BITS && i < BITS
    ensures Bit(Under(n), i) <==> i < n
    ensures Bit(From(n), i) <==> i >= n
  {
    BitOfOnes(n, i);
    BitOfNot(Under(n), i);
  }

  /** `__ffs`: the lowest set bit. */
  function Lowest(w: nat): (r: nat)
    requires w > 0
    ensures Bit(w, r) && forall i :: 0 <= i < r ==> !Bit(w, i)
  {
    if w % 2 == 1 then 0 else 1 + Lowest(w / 2)
  }

  lemma {:induction false} BitsBelow(w: nat, n: nat, i: nat)
    requires w < Pow2(n) && Bit(w, i)
    ensures i < n
  {
    if n == 0 { BitOfZero(i); } else if i > 0 { BitsBelow(w / 2, n - 1, i - 1); }
  }

  lemma LowestInWord(w: Word)
    requires w > 0
    ensures Lowest(w) < BITS
  {
    WordSize();
    BitsBelow(w, BITS, Lowest(w));
  }

  /** How many of the lowest `n` bits are set. */
  function Count(w: nat, n: nat): nat {
    if n == 0 then 0 else Count(w, n - 1) + (if Bit(w, n - 1) then 1 else 0)
  }

  /** A single bit: `1UL << n`. */
  lemma {:induction false} BitOfPow2(n: nat, i: nat)
    ensures Bit(Pow2(n), i) <==> i == n
  {
    if n == 0 {
      if i > 0 { BitOfZero(i - 1); }
    } else if i > 0 {
      assert Pow2(n) / 2 == Pow2(n - 1);
      BitOfPow2(n - 1, i - 1);
    }
  }

  function Single(n: nat): Word
    requires n < BITS
  {
    WordSize();
    OnesBelow(n, BITS - 1);
    assert Pow2(BITS) == 2 * Pow2(BITS - 1);
    Pow2(n)
  }

  /** Counting the bits of a masked word. */
  lemma {:induction false} CountMasked(w: Word, n: nat, m: nat)
    requires n <= BITS && m <= BITS
    ensures Count(AndWord(w, Under(n)), m) == Count(w, if m < n then m else n)
  {
    if m > 0 {
      CountMasked(w, n, m - 1);
      BitOfAnd(w, Under(n), m - 1);
      BitOfMasks(n, m - 1);
      hide And, Bit;
    }
  }

  /** `ALIGN_MASK`: `(x + mask) & ~mask`. */
  function AlignUp(x: nat, mask: nat): nat {
    AndBelow(x + mask, mask);
    x + mask - And(x + mask, mask)
  }

  /** For a mask that is one less than a power of two this is the least aligned number from `x` on. */
  lemma AlignIsLeast(x: nat, k: nat, y: nat)
    ensures var a := AlignUp(x, Ones(k));
            && And(a, Ones(k)) == 0 && x <= a
            && (x <= y && And(y, Ones(k)) == 0 ==> a <= y)
  {
    var m, z := Pow2(k), x + Ones(k);
    var a := AlignUp(x, Ones(k));
    AndOnes(z, k);
    AndOnes(a, k);
    AndOnes(y, k);
    hide And, Ones, Pow2, AlignUp;
    RoundDown(z, m);
    if Remainder(y, m) == 0 && x <= y { NextMultiple(a, y, m); }
  }

  lemma RoundDown(z: nat, m: nat)
    requires m > 0
    ensures Remainder(z, m) <= z && Remainder(z - Remainder(z, m), m) == 0
  {
    var q := z / m;
    assert z == q * m + z % m;
    Division(q * m, q, 0, m);
  }

  /** Multiples are at least `m` apart. */
  lemma NextMultiple(a: nat, y: nat, m: nat)
    requires m > 0 && Remainder(a, m) == 0 && Remainder(y, m) == 0 && a < y + m
    ensures a <= y
  {
    var d := a / m - y / m;
    assert a == (a / m) * m && y == (y / m) * m;
    assert d * m == a - y;
    assert d >= 1 ==> d * m >= m;
    assert d <= 0 ==> d * m <= 0;
  }

  /** `w << n`. */
  function ShiftLeft(w: Word, n: nat): Word { (w * Pow2(n)) % 0x1_0000_0000_0000_0000 }

  lemma {:induction false} BitOfProduct(w: nat, n: nat, i: nat)
    ensures Bit(w * Pow2(n), i) <==> i >= n && Bit(w, i - n)
  {
    if n > 0 {
      var v := w * Pow2(n - 1);
      assert w * Pow2(n) == 2 * v;
      if i > 0 { BitOfProduct(w, n - 1, i - 1); }
    }
  }

  lemma BitOfShift(w: Word, n: nat, i: nat)
    requires i < BITS
    ensures Bit(ShiftLeft(w, n), i) <==> i >= n && Bit(w, i - n)
  {
    var x := w * Pow2(n);
    WordSize();
    AndOnes(x, BITS);
    assert ShiftLeft(w, n) == Remainder(x, Pow2(BITS)) == And(x, Ones(BITS));
    hide ShiftLeft, And, Remainder, Ones, Pow2;
    BitOfAnd(x, Ones(BITS), i);
    BitOfOnes(BITS, i);
    BitOfProduct(w, n, i);
  }

  /** Numbers with the same bits are the same. */
  lemma {:induction false} SameBits(x: nat, y: nat, n: nat)
    requires x < Pow2(n) && y < Pow2(n) && forall i :: 0 <= i < n ==> (Bit(x, i) <==> Bit(y, i))
    ensures x == y
  {
    if n > 0 {
      assert Bit(x, 0) <==> Bit(y, 0);
      forall i | 0 <= i < n - 1
        ensures Bit(x / 2, i) <==> Bit(y / 2, i)
      {
        assert Bit(x, i + 1) <==> Bit(y, i + 1);
      }
      SameBits(x / 2, y / 2, n - 1);
    }
  }
}
