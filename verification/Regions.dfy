/** Finding, allocating and releasing aligned regions of a bitmap, `2^order` bits long
    (ulib/src/base/bitmap.c, `__reg_op` and the functions on top of it). */
module Regions {
  import opened Common
  import opened Words
  import opened Bitmap

  const ENOMEM: int := 12
  const EBUSY: int := 16

  datatype RegOp = IsFree | Alloc | Release

  /** A position that regions of that order begin at. */
  predicate Aligned(pos: nat, order: nat) { Remainder(pos, Pow2(order)) == 0 }

  /** Bit `k` belongs to the region at `pos`. */
  predicate InRegion(k: nat, pos: nat, order: nat) { pos <= k < pos + Pow2(order) }

  /** The part of a region in each word it spans: `n` bits from `offset` on. */
  function RegionMask(n: nat, offset: nat): Word
    requires 1 <= n <= BITS
  {
    var top := Single(n - 1);
    WordSize();
    OnesBelow(n, BITS);
    assert top + (top - 1) == Ones(n);
    ShiftLeft(top + (top - 1), offset)
  }

  lemma BitOfRegionMask(n: nat, offset: nat, i: nat)
    requires 1 <= n <= BITS && i < BITS
    ensures Bit(RegionMask(n, offset), i) <==> offset <= i < offset + n
  {
    WordSize();
    OnesBelow(n, BITS);
    assert RegionMask(n, offset) == ShiftLeft(Ones(n), offset);
    hide RegionMask, Ones, ShiftLeft;
    BitOfShift(Ones(n), offset, i);
    if i >= offset { BitOfOnes(n, i - offset); }
  }

  function InOneWord(order: nat): nat { if Pow2(order) < BITS then Pow2(order) else BITS }

  /** A region either lies within one word or consists of whole words. */
  lemma RegionShape(pos: nat, order: nat)
    requires Aligned(pos, order)
    ensures order <= 6 ==> pos % BITS + Pow2(order) <= BITS && Longs(Pow2(order)) == 1
    ensures order >= 6 ==> pos % BITS == 0 && Pow2(order) == BITS * Longs(Pow2(order))
  {
    if order > 6 {
      LargeOrders(order);
      WholeWords(pos, Pow2(order - 6));
    } else {
      SmallOrders(order);
      WithinWord(pos, Pow2(order));
    }
    hide Pow2;
  }

  lemma WithinWord(pos: nat, n: nat)
    requires n in {1, 2, 4, 8, 16, 32, 64} && Remainder(pos, n) == 0
    ensures pos % BITS + n <= BITS && Longs(n) == 1 && (n == BITS ==> pos % BITS == 0)
  {
    var d := if n == 1 then 64 else if n == 2 then 32 else if n == 4 then 16 else if n == 8 then 8
             else if n == 16 then 4 else if n == 32 then 2 else 1;
    assert BITS == d * n;
    RemainderInWord(pos, n, d);
    assert BITS - n == (d - 1) * n;
    IsMultiple(BITS - n, d - 1, n);
    hide Remainder;
    NextMultiple(pos % BITS, BITS - n, n);
  }

  lemma IsMultiple(x: nat, c: int, n: nat)
    requires n > 0 && x == c * n
    ensures Remainder(x, n) == 0
  {
    Division(x, c, 0, n);
  }

  lemma RemainderInWord(pos: nat, n: nat, d: nat)
    requires n > 0 && BITS == d * n && Remainder(pos, n) == 0
    ensures Remainder(pos % BITS, n) == 0
  {
    var c, e := pos / n, pos / BITS;
    assert pos == c * n && pos == e * BITS + pos % BITS;
    assert e * (d * n) == (e * d) * n;
    assert pos % BITS == (c - e * d) * n;
    IsMultiple(pos % BITS, c - e * d, n);
  }

  lemma WholeWords(pos: nat, q: nat)
    requires q > 0 && Remainder(pos, BITS * q) == 0
    ensures pos % BITS == 0 && Longs(BITS * q) == q
  {
    var c := pos / (BITS * q);
    assert pos == c * (BITS * q);
    Division(pos, c * q, 0, BITS);
  }

  lemma SmallOrders(order: nat)
    requires order <= 6
    ensures Pow2(order) in {1, 2, 4, 8, 16, 32, 64} && (Pow2(order) < BITS <==> order < 6)
  {
    assert order in {0, 1, 2, 3, 4, 5, 6};
    assert Pow2(1) == 2 && Pow2(2) == 4 && Pow2(3) == 8;
    assert Pow2(4) == 16 && Pow2(5) == 32 && Pow2(6) == 64;
  }

  lemma {:induction false} LargeOrders(order: nat)
    requires order >= 6
    ensures Pow2(order) == BITS * Pow2(order - 6)
  {
    if order > 6 { LargeOrders(order - 1); } else { SmallOrders(6); }
  }

  /** The bits of a region are those of the mask in the words it spans. */
  lemma RegionBits(pos: nat, order: nat, k: nat)
    requires Aligned(pos, order)
    ensures InRegion(k, pos, order) <==>
            && pos / BITS <= k / BITS < pos / BITS + Longs(Pow2(order))
            && Bit(RegionMask(InOneWord(order), pos % BITS), k % BITS)
  {
    RegionShape(pos, order);
    if order <= 6 { SmallOrders(order); } else { LargeOrders(order); }
    BitOfRegionMask(InOneWord(order), pos % BITS, k % BITS);
    hide RegionMask, Pow2, Bit, Aligned;
  }

  // ---------- The three operations ----------

  /** A region that ends within the map. */
  predicate Fits(words: seq<Word>, pos: nat, order: nat) {
    Aligned(pos, order) && pos + Pow2(order) <= BITS * |words|
  }

  ghost predicate FreeRegion(words: seq<Word>, pos: nat, order: nat)
    requires pos + Pow2(order) <= BITS * |words|
  {
    Clear(words, true, pos, pos + Pow2(order))
  }

  /** The bits of the region, and only those, are now `v`. */
  ghost predicate RegionSet(before: seq<Word>, after: seq<Word>, v: bool, pos: nat, order: nat) {
    && |before| == |after|
    && forall k :: 0 <= k < BITS * |before| ==>
         BitAt(after, k) == if InRegion(k, pos, order) then v else BitAt(before, k)
  }

  /** The word of index `p` with the mask applied. */
  function Apply(op: RegOp, w: Word, mask: Word): Word {
    match op
    case IsFree => w
    case Alloc => OrWord(w, mask)
    case Release => AndWord(w, Not(mask))
  }

  lemma BitOfApply(op: RegOp, w: Word, mask: Word, i: nat)
    requires i < BITS
    ensures Bit(Apply(op, w, mask), i) <==>
            if op.Alloc? then Bit(w, i) || Bit(mask, i)
            else if op.Release? then Bit(w, i) && !Bit(mask, i) else Bit(w, i)
  {
    BitOfOr(w, mask, i);
    BitOfAnd(w, Not(mask), i);
    BitOfNot(mask, i);
    hide Bit, Or, And, Not;
  }

  /** Applying the mask to every word the region spans sets its bits. */
  lemma RegionApplied(op: RegOp, before: seq<Word>, after: seq<Word>, pos: nat, order: nat)
    requires !op.IsFree? && Fits(before, pos, order) && |before| == |after|
    requires var n, mask := Longs(Pow2(order)), RegionMask(InOneWord(order), pos % BITS);
             forall p :: 0 <= p < |before| ==>
               after[p] == if pos / BITS <= p < pos / BITS + n then Apply(op, before[p], mask) else before[p]
    ensures RegionSet(before, after, op.Alloc?, pos, order)
  {
    var mask := RegionMask(InOneWord(order), pos % BITS);
    hide Bit, Apply, RegionMask, InOneWord, Pow2, Longs, Aligned, InRegion;
    forall k | 0 <= k < BITS * |before|
      ensures BitAt(after, k) == if InRegion(k, pos, order) then op.Alloc? else BitAt(before, k)
    {
      RegionBits(pos, order, k);
      BitOfApply(op, before[k / BITS], mask, k % BITS);
    }
  }

  /** No bit of the region is set in word `p`. */
  ghost predicate FreeIn(words: seq<Word>, pos: nat, order: nat, p: nat)
    requires p < |words|
  {
    forall k :: BITS * p <= k < BITS * (p + 1) && InRegion(k, pos, order) ==> !BitAt(words, k)
  }

  lemma BitOfMasked(words: seq<Word>, pos: nat, order: nat, p: nat, i: nat)
    requires Fits(words, pos, order) && pos / BITS <= p < pos / BITS + Longs(Pow2(order)) && p < |words| && i < BITS
    ensures Bit(AndWord(words[p], RegionMask(InOneWord(order), pos % BITS)), i) <==>
            InRegion(BITS * p + i, pos, order) && BitAt(words, BITS * p + i)
  {
    var k := BITS * p + i;
    assert k / BITS == p && k % BITS == i;
    hide Bit, RegionMask, InOneWord, Pow2, Longs, Aligned, InRegion, AndWord;
    RegionBits(pos, order, k);
    BitOfAndWord(words[p], RegionMask(InOneWord(order), pos % BITS), i);
  }

  /** A masked word is zero exactly when the region has no set bit in it. */
  lemma MaskedWordIsZero(words: seq<Word>, pos: nat, order: nat, p: nat)
    requires Fits(words, pos, order) && pos / BITS <= p < pos / BITS + Longs(Pow2(order)) && p < |words|
    ensures AndWord(words[p], RegionMask(InOneWord(order), pos % BITS)) == 0 <==> FreeIn(words, pos, order, p)
  {
    var w := AndWord(words[p], RegionMask(InOneWord(order), pos % BITS));
    hide Bit, BitAt, RegionMask, InOneWord, Pow2, Longs, Aligned, InRegion, AndWord;
    if w == 0 {
      forall k | BITS * p <= k < BITS * (p + 1) && InRegion(k, pos, order)
        ensures !BitAt(words, k)
      {
        BitOfZero(k - BITS * p);
        BitOfMasked(words, pos, order, p, k - BITS * p);
      }
    } else {
      LowestInWord(w);
      BitOfMasked(words, pos, order, p, Lowest(w));
    }
  }

  lemma BitOfAndWord(x: Word, y: Word, i: nat)
    ensures Bit(AndWord(x, y), i) <==> Bit(x, i) && Bit(y, i)
  {
    BitOfAnd(x, y, i);
  }

  /** The words a region spans belong to the map. */
  lemma RegionSpans(words: seq<Word>, pos: nat, order: nat)
    requires Fits(words, pos, order)
    ensures pos / BITS + Longs(Pow2(order)) <= |words|
  {
    RegionShape(pos, order);
    hide Pow2;
  }

  /** `__reg_op`: 1 from a test of a free region, 0 otherwise. */
  method RegionOp(words: array<Word>, pos: nat, order: nat, op: RegOp) returns (ret: int)
    requires Fits(words[..], pos, order)
    modifies words
    ensures op.IsFree? ==> words[..] == old(words[..])
    ensures ret == if op.IsFree? && FreeRegion(words[..], pos, order) then 1 else 0
    ensures !op.IsFree? ==> RegionSet(old(words[..]), words[..], op.Alloc?, pos, order)
  {
    RegionSpans(words[..], pos, order);
    if op.IsFree? {
      ret := TestRegion(words, pos, order);
    } else {
      MaskRegion(words, pos, order, op);
      ret := 0;
    }
  }

  method TestRegion(words: array<Word>, pos: nat, order: nat) returns (ret: int)
    requires Fits(words[..], pos, order) && pos / BITS + Longs(Pow2(order)) <= words.Length
    ensures ret == if FreeRegion(words[..], pos, order) then 1 else 0
  {
    var index, mask := pos / BITS, RegionMask(InOneWord(order), pos % BITS);
    var n := Longs(Pow2(order));
    hide BitAt, RegionMask, InOneWord, Aligned, AndWord;
    for i := 0 to n
      invariant forall k :: pos <= k < pos + Pow2(order) && k < BITS * (index + i) ==> !BitAt(words[..], k)
    {
      MaskedWordIsZero(words[..], pos, order, index + i);
      if AndWord(words[index + i], mask) != 0 { return 0; }
    }
    RegionEnds(pos, order);
    return 1;
  }

  lemma RegionEnds(pos: nat, order: nat)
    requires Aligned(pos, order)
    ensures pos + Pow2(order) <= BITS * (pos / BITS + Longs(Pow2(order)))
  {
    RegionShape(pos, order);
    hide Pow2;
  }

  method MaskRegion(words: array<Word>, pos: nat, order: nat, op: RegOp)
    requires !op.IsFree? && Fits(words[..], pos, order) && pos / BITS + Longs(Pow2(order)) <= words.Length
    modifies words
    ensures RegionSet(old(words[..]), words[..], op.Alloc?, pos, order)
  {
    ghost var before := words[..];
    var index, mask := pos / BITS, RegionMask(InOneWord(order), pos % BITS);
    var n := Longs(Pow2(order));
    hide BitAt, Apply, InOneWord, Aligned;
    for i := 0 to n
      invariant forall p :: 0 <= p < words.Length ==>
                  words[p] == if index <= p < index + i then Apply(op, before[p], mask) else before[p]
    {
      words[index + i] := Apply(op, words[index + i], mask);
    }
    RegionApplied(op, before, words[..], pos, order);
  }

  // ---------- Finding, allocating, releasing ----------

  /** `bitmap_find_free_region`: the first free region, now allocated, or -ENOMEM. */
  method FindFreeRegion(words: array<Word>, bits: nat, order: nat) returns (r: int)
    requires bits <= BITS * words.Length
    modifies words
    ensures r == -ENOMEM || r >= 0
    ensures r >= 0 ==>
              && Aligned(r, order) && r + Pow2(order) <= bits && FreeRegion(old(words[..]), r, order)
              && RegionSet(old(words[..]), words[..], true, r, order)
    ensures r == -ENOMEM ==> words[..] == old(words[..])
    ensures forall x :: 0 <= x < (if r >= 0 then r else bits) && Aligned(x, order) && x + Pow2(order) <= bits ==>
              !FreeRegion(old(words[..]), x, order)
  {
    hide FreeRegion, RegionSet, Pow2, Remainder;
    var pos := 0;
    FirstAligned(order);
    while pos + Pow2(order) <= bits
      invariant Aligned(pos, order) && words[..] == old(words[..])
      invariant forall x :: 0 <= x < pos && Aligned(x, order) && x + Pow2(order) <= bits ==>
                  !FreeRegion(words[..], x, order)
      decreases bits - pos
    {
      var free := RegionOp(words, pos, order, IsFree);
      if free != 0 {
        var done := RegionOp(words, pos, order, Alloc);
        return pos;
      }
      NextAligned(pos, order);
      pos := pos + Pow2(order);
    }
    return -ENOMEM;
  }

  lemma FirstAligned(order: nat)
    ensures Aligned(0, order)
  {
  }

  lemma NextAligned(pos: nat, order: nat)
    requires Aligned(pos, order)
    ensures Aligned(pos + Pow2(order), order)
    ensures forall x :: pos < x < pos + Pow2(order) ==> !Aligned(x, order)
  {
    var n := Pow2(order);
    hide Pow2;
    IsMultiple(pos + n, pos / n + 1, n);
    forall x | pos < x < pos + n
      ensures !Aligned(x, order)
    {
      if Remainder(x, n) == 0 { NextMultiple(x, pos, n); }
    }
  }

  /** `bitmap_allocate_region`. */
  method AllocateRegion(words: array<Word>, pos: nat, order: nat) returns (r: int)
    requires Fits(words[..], pos, order)
    modifies words
    ensures r == if FreeRegion(old(words[..]), pos, order) then 0 else -EBUSY
    ensures r == 0 ==> RegionSet(old(words[..]), words[..], true, pos, order)
    ensures r != 0 ==> words[..] == old(words[..])
  {
    var free := RegionOp(words, pos, order, IsFree);
    if free == 0 { return -EBUSY; }
    var done := RegionOp(words, pos, order, Alloc);
    return 0;
  }

  /** `bitmap_release_region`. */
  method ReleaseRegion(words: array<Word>, pos: nat, order: nat)
    requires Fits(words[..], pos, order)
    modifies words
    ensures RegionSet(old(words[..]), words[..], false, pos, order)
  {
    var done := RegionOp(words, pos, order, Release);
  }

  // ---------- Allocating and releasing ----------

  lemma SameWords(a: seq<Word>, b: seq<Word>)
    requires |a| == |b| && forall k :: 0 <= k < BITS * |a| ==> BitAt(a, k) == BitAt(b, k)
    ensures a == b
  {
    forall p | 0 <= p < |a|
      ensures a[p] == b[p]
    {
      forall i | 0 <= i < BITS
        ensures Bit(a[p], i) == Bit(b[p], i)
      {
        InWord(a, p, i);
        InWord(b, p, i);
        assert BitAt(a, BITS * p + i) == BitAt(b, BITS * p + i);
      }
      WordSize();
      SameBits(a[p], b[p], BITS);
    }
  }

  /** Releasing a region that was free before it was allocated restores the bitmap. */
  lemma ReleaseUndoesAllocate(a: seq<Word>, b: seq<Word>, c: seq<Word>, pos: nat, order: nat)
    requires Fits(a, pos, order) && FreeRegion(a, pos, order)
    requires RegionSet(a, b, true, pos, order) && RegionSet(b, c, false, pos, order)
    ensures c == a
  {
    hide BitAt, Pow2, Aligned;
    forall k | 0 <= k < BITS * |a|
      ensures BitAt(c, k) == BitAt(a, k)
    {
      assert BitAt(b, k) == if InRegion(k, pos, order) then true else BitAt(a, k);
    }
    SameWords(a, c);
  }
}
