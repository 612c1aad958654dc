/** Bitmaps over arrays of words (ulib/src/base/bitmap.c, ulib/src/base/math_bit.h). */
module Bitmap {
  import opened Common
  import opened Words

  function BitAt(words: seq<Word>, i: nat): bool
    requires i < BITS * |words|
  {
    Bit(words[i / BITS], i % BITS)
  }

  // ---------- The next bit ----------

  /** No bit from `a` up to `b` has the value `v`. */
  ghost predicate Clear(words: seq<Word>, v: bool, a: nat, b: nat)
    requires b <= BITS * |words|
  {
    forall i :: a <= i < b ==> BitAt(words, i) != v
  }

  /** `r` is the first bit of value `v` from `a` on, or `size` if there is none below it. */
  ghost predicate IsNext(words: seq<Word>, v: bool, size: nat, a: nat, r: nat)
    requires size <= BITS * |words|
  {
    if a >= size then r == size
    else a <= r <= size && Clear(words, v, a, r) && (r < size ==> BitAt(words, r) == v)
  }

  /** The set bits of `w` are those bits of word `p` from `lo` up to `hi` that have the value `v`. */
  ghost predicate Shows(words: seq<Word>, v: bool, p: nat, lo: nat, hi: nat, w: Word)
    requires p < |words|
  {
    forall i :: 0 <= i < BITS ==> (Bit(w, i) <==> lo <= i < hi && Bit(words[p], i) == v)
  }

  /** Words whose bits are the set ones (`v`) or the clear ones. */
  function Seen(v: bool, w: Word): Word { if v then w else Not(w) }

  lemma ShowsAll(words: seq<Word>, v: bool, p: nat)
    requires p < |words|
    ensures Shows(words, v, p, 0, BITS, Seen(v, words[p]))
  {
    forall i | 0 <= i < BITS
      ensures Bit(Seen(v, words[p]), i) <==> Bit(words[p], i) == v
    {
      BitOfNot(words[p], i);
    }
  }

  /** The first `n` bits masked out: `tmp &= ~0UL << n`, or `tmp |= ~0UL >> (64 - n)` when looking for
      clear bits. */
  function DropLow(v: bool, w: Word, n: nat): Word
    requires n <= BITS
  {
    if v then AndWord(w, From(n)) else OrWord(w, Under(n))
  }

  /** All but the first `n` bits masked out: `tmp &= ~0UL >> (64 - n)`, or `tmp |= ~0UL << n`. */
  function DropHigh(v: bool, w: Word, n: nat): Word
    requires n <= BITS
  {
    if v then AndWord(w, Under(n)) else OrWord(w, From(n))
  }

  lemma ShowsFrom(words: seq<Word>, v: bool, p: nat, n: nat)
    requires p < |words| && n <= BITS
    ensures Shows(words, v, p, n, BITS, Seen(v, DropLow(v, words[p], n)))
  {
    var w := words[p];
    forall i | 0 <= i < BITS
      ensures Bit(Seen(v, DropLow(v, w, n)), i) <==> n <= i && Bit(w, i) == v
    {
      BitOfMasks(n, i);
      BitOfAnd(w, From(n), i);
      BitOfOr(w, Under(n), i);
      BitOfNot(DropLow(v, w, n), i);
    }
  }

  lemma ShowsUnder(words: seq<Word>, v: bool, p: nat, lo: nat, n: nat, w: Word)
    requires p < |words| && n <= BITS && Shows(words, v, p, lo, BITS, Seen(v, w))
    ensures Shows(words, v, p, lo, n, Seen(v, DropHigh(v, w, n)))
  {
    forall i | 0 <= i < BITS
      ensures Bit(Seen(v, DropHigh(v, w, n)), i) <==> lo <= i < n && Bit(words[p], i) == v
    {
      assert Bit(Seen(v, w), i) <==> lo <= i && Bit(words[p], i) == v;
      BitOfMasks(n, i);
      BitOfAnd(w, Under(n), i);
      BitOfOr(w, From(n), i);
      BitOfNot(w, i);
      BitOfNot(DropHigh(v, w, n), i);
    }
  }

  /** Bit `j` of word `p`. */
  lemma InWord(words: seq<Word>, p: nat, j: nat)
    requires p < |words| && j < BITS
    ensures BITS * p + j < BITS * |words| && BitAt(words, BITS * p + j) == Bit(words[p], j)
  {
    assert (BITS * p + j) / BITS == p && (BITS * p + j) % BITS == j;
  }

  /** A word that shows nothing, and the first bit of one that shows something. */
  lemma FirstShown(words: seq<Word>, v: bool, p: nat, lo: nat, hi: nat, w: Word)
    requires p < |words| && hi <= BITS && Shows(words, v, p, lo, hi, w)
    ensures BITS * p + hi <= BITS * |words|
    ensures w == 0 ==> Clear(words, v, BITS * p + lo, BITS * p + hi)
    ensures w != 0 ==> lo <= Lowest(w) < hi && BitAt(words, BITS * p + Lowest(w)) == v
    ensures w != 0 ==> Clear(words, v, BITS * p + lo, BITS * p + Lowest(w))
  {
    if w != 0 {
      LowestInWord(w);
      InWord(words, p, Lowest(w));
      ClearBefore(words, v, p, lo, hi, w, Lowest(w));
    } else {
      forall i | 0 <= i < BITS
        ensures !Bit(w, i)
      {
        BitOfZero(i);
      }
      ClearBefore(words, v, p, lo, hi, w, hi);
    }
    hide BitAt, Clear, Bit;
  }

  lemma ClearBefore(words: seq<Word>, v: bool, p: nat, lo: nat, hi: nat, w: Word, end: nat)
    requires p < |words| && end <= hi <= BITS && Shows(words, v, p, lo, hi, w)
    requires forall i :: 0 <= i < end ==> !Bit(w, i)
    ensures BITS * p + end <= BITS * |words| && Clear(words, v, BITS * p + lo, BITS * p + end)
  {
    hide Bit, BitAt;
    forall i | BITS * p + lo <= i < BITS * p + end
      ensures BitAt(words, i) != v
    {
      InWord(words, p, i - BITS * p);
      assert !Bit(w, i - BITS * p);
    }
  }

  /** `found_first`: the last word, of which `left` bits belong to the map; `tmp` shows it from `lo` on. */
  method LastWord(words: array<Word>, v: bool, tmp: Word, ghost p: nat, ghost lo: nat, left: nat, result: nat)
    returns (r: nat)
    requires p < words.Length && result == BITS * p && lo <= left < BITS
    requires Shows(words[..], v, p, lo, BITS, Seen(v, tmp))
    ensures result + lo <= r <= result + left && result + left <= BITS * words.Length
    ensures Clear(words[..], v, result + lo, r) && (r < result + left ==> BitAt(words[..], r) == v)
  {
    var w := Seen(v, DropHigh(v, tmp, left));
    ShowsUnder(words[..], v, p, lo, left, tmp);
    FirstShown(words[..], v, p, lo, left, w);
    if w == 0 { return result + left; }
    return result + Lowest(w);
  }

  /** The loop over whole words, and the rest: bits before `result` have been looked at. */
  method NextFrom(words: array<Word>, v: bool, size: nat, ghost a: nat, start: nat) returns (r: nat)
    requires a <= BITS * start <= size <= BITS * words.Length && Clear(words[..], v, a, BITS * start)
    ensures a <= r <= size && Clear(words[..], v, a, r) && (r < size ==> BitAt(words[..], r) == v)
  {
    var p, result, left := start, BITS * start, size - BITS * start;
    while left >= BITS
      invariant result == BITS * p && left == size - result && result <= size
      invariant a <= result && Clear(words[..], v, a, result)
    {
      ShowsAll(words[..], v, p);
      var w := Seen(v, words[p]);
      FirstShown(words[..], v, p, 0, BITS, w);
      if w != 0 { return result + Lowest(w); }
      p, result, left := p + 1, result + BITS, left - BITS;
    }
    if left == 0 { return result; }
    ShowsAll(words[..], v, p);
    r := LastWord(words, v, words[p], p, 0, left, result);
  }

  /** `find_next_bit` (`v`) and `find_next_zero_bit`. */
  method FindNext(words: array<Word>, v: bool, size: nat, offset: nat) returns (r: nat)
    requires size <= BITS * words.Length
    ensures IsNext(words[..], v, size, offset, r)
  {
    if offset >= size { return size; }
    var p, off := offset / BITS, offset % BITS;
    var result, left := offset - off, size - (offset - off);
    if off != 0 {
      ShowsFrom(words[..], v, p, off);
      var tmp := DropLow(v, words[p], off);
      if left < BITS {
        r := LastWord(words, v, tmp, p, off, left, result);
        return;
      }
      var w := Seen(v, tmp);
      FirstShown(words[..], v, p, off, BITS, w);
      if w != 0 { return result + Lowest(w); }
      p := p + 1;
    }
    r := NextFrom(words, v, size, offset, p);
  }

  /** `find_first_bit`. */
  method FindFirst(words: array<Word>, size: nat) returns (r: nat)
    requires size <= BITS * words.Length
    ensures IsNext(words[..], true, size, 0, r)
  {
    r := NextFrom(words, true, size, 0, 0);
  }

  // ---------- Ordinals ----------

  /** How many bits below position `n` are set. */
  ghost function Rank(words: seq<Word>, n: nat): nat
    requires n <= BITS * |words|
  {
    if n == 0 then 0 else Rank(words, n - 1) + (if BitAt(words, n - 1) then 1 else 0)
  }

  /** The position of the set bit with `ord` set bits below it, or 0 if there is none. */
  ghost function PositionOf(words: seq<Word>, ord: nat, bits: nat): nat
    requires bits <= BITS * |words|
  {
    if bits == 0 then 0
    else if BitAt(words, bits - 1) && Rank(words, bits - 1) == ord then bits - 1
    else PositionOf(words, ord, bits - 1)
  }

  lemma {:induction false} RankClear(words: seq<Word>, a: nat, b: nat)
    requires a <= b <= BITS * |words| && Clear(words, true, a, b)
    ensures Rank(words, a) == Rank(words, b)
  {
    if a < b { RankClear(words, a, b - 1); }
  }

  lemma {:induction false} RankGrows(words: seq<Word>, a: nat, b: nat)
    requires a <= b <= BITS * |words|
    ensures Rank(words, a) <= Rank(words, b) <= Rank(words, a) + b - a
  {
    if a < b { RankGrows(words, a, b - 1); }
  }

  /** The rank after the next set bit. */
  lemma RankNext(words: seq<Word>, i: nat, r: nat)
    requires i < r <= BITS * |words| && BitAt(words, i) && Clear(words, true, i + 1, r)
    ensures Rank(words, r) == Rank(words, i) + 1
  {
    RankClear(words, i + 1, r);
  }

  /** Ordinals and positions determine each other. */
  lemma {:induction false} PositionIs(words: seq<Word>, p: nat, bits: nat)
    requires p < bits <= BITS * |words| && BitAt(words, p)
    ensures PositionOf(words, Rank(words, p), bits) == p && Rank(words, p) < Rank(words, bits)
  {
    if p < bits - 1 {
      PositionIs(words, p, bits - 1);
    }
  }

  lemma {:induction false} PositionFound(words: seq<Word>, ord: nat, bits: nat)
    requires bits <= BITS * |words|
    ensures var p := PositionOf(words, ord, bits);
            if ord < Rank(words, bits) then p < bits && BitAt(words, p) && Rank(words, p) == ord else p == 0
  {
    if bits > 0 {
      PositionFound(words, ord, bits - 1);
    }
  }

  /** `bitmap_pos_to_ord`. */
  method PosToOrd(buf: array<Word>, pos: int, bits: nat) returns (ord: int)
    requires bits <= BITS * buf.Length
    ensures ord == if 0 <= pos < bits && BitAt(buf[..], pos) then Rank(buf[..], pos) else -1
  {
    if pos < 0 || pos >= bits || !Bit(buf[pos / BITS], pos % BITS) { return -1; }
    assert BitAt(buf[..], pos);
    hide BitAt;
    var i := FindFirst(buf, bits);
    RankClear(buf[..], 0, i);
    ord := 0;
    while i < pos
      invariant 0 <= i <= pos && BitAt(buf[..], i) && Rank(buf[..], i) == ord
    {
      var r := FindNext(buf, true, bits, i + 1);
      RankNext(buf[..], i, r);
      i, ord := r, ord + 1;
    }
  }

  /** `bitmap_ord_to_pos`. */
  method OrdToPos(buf: array<Word>, ord: int, bits: nat) returns (pos: nat)
    requires bits <= BITS * buf.Length
    ensures pos == if ord < 0 then 0 else PositionOf(buf[..], ord, bits)
    ensures if 0 <= ord < Rank(buf[..], bits) then pos < bits && BitAt(buf[..], pos) && Rank(buf[..], pos) == ord
            else pos == 0
  {
    RankGrows(buf[..], 0, bits);
    if ord >= 0 { PositionFound(buf[..], ord, bits); }
    hide BitAt, PositionOf;
    pos := 0;
    if 0 <= ord < bits {
      var i := FindFirst(buf, bits);
      var left := ord;
      RankClear(buf[..], 0, i);
      while i < bits && left > 0
        invariant 0 <= i <= bits && left >= 0 && Rank(buf[..], i) + left == ord
        invariant i < bits ==> BitAt(buf[..], i)
        decreases bits - i
      {
        left := left - 1;
        var r := FindNext(buf, true, bits, i + 1);
        RankNext(buf[..], i, r);
        i := r;
      }
      if i < bits && left == 0 {
        PositionIs(buf[..], i, bits);
        pos := i;
      }
    }
  }

  /** The set bits of one word. */
  lemma {:induction false} RankInWord(words: seq<Word>, p: nat, n: nat)
    requires p < |words| && n <= BITS
    ensures BITS * p + n <= BITS * |words|
    ensures Rank(words, BITS * p + n) == Rank(words, BITS * p) + Count(words[p], n)
  {
    if n > 0 {
      RankInWord(words, p, n - 1);
      InWord(words, p, n - 1);
      hide BitAt, Bit;
    }
  }

  /** `bitmap_weight`. */
  method Weight(words: array<Word>, bits: nat) returns (w: nat)
    requires bits <= BITS * words.Length
    ensures w == Rank(words[..], bits)
  {
    w := 0;
    var lim := bits / BITS;
    for k := 0 to lim
      invariant w == Rank(words[..], BITS * k)
    {
      RankInWord(words[..], k, BITS);
      w := w + Count(words[k], BITS);
    }
    if bits % BITS != 0 {
      CountMasked(words[lim], bits % BITS, BITS);
      RankInWord(words[..], lim, bits % BITS);
      w := w + Count(AndWord(words[lim], Under(bits % BITS)), BITS);
    }
  }

  // ---------- Remapping ----------

  /** Where position `b` goes: the n-th set bit of `old` to the n-th of `new`, counted round if `new` has
      fewer, and every other position to itself. */
  ghost function Mapped(b: int, old': seq<Word>, new': seq<Word>, bits: nat): int
    requires bits <= BITS * |old'| && bits <= BITS * |new'|
  {
    if 0 <= b < bits && BitAt(old', b) && Rank(new', bits) > 0
    then PositionOf(new', Remainder(Rank(old', b), Rank(new', bits)), bits) else b
  }

  /** There and back. */
  ghost function MappedBack(b: int, old': seq<Word>, new': seq<Word>, bits: nat): int
    requires bits <= BITS * |old'| && bits <= BITS * |new'|
  {
    Mapped(Mapped(b, old', new', bits), new', old', bits)
  }

  /** `bitmap_bitremap`. */
  method BitRemap(oldbit: int, old': array<Word>, new': array<Word>, bits: nat) returns (r: int)
    requires bits <= BITS * old'.Length && bits <= BITS * new'.Length
    ensures r == Mapped(oldbit, old'[..], new'[..], bits)
    ensures 0 <= oldbit < bits && BitAt(old'[..], oldbit) && Rank(new'[..], bits) > 0 ==>
              && 0 <= r < bits && BitAt(new'[..], r)
              && Rank(new'[..], r) == Rank(old'[..], oldbit) % Rank(new'[..], bits)
    ensures !(0 <= oldbit < bits && BitAt(old'[..], oldbit) && Rank(new'[..], bits) > 0) ==> r == oldbit
  {
    if 0 <= oldbit < bits && BitAt(old'[..], oldbit) && Rank(new'[..], bits) > 0 {
      MappedFacts(oldbit, old'[..], new'[..], bits);
    }
    hide BitAt, PositionOf, Rank;
    var w := Weight(new', bits);
    var n := PosToOrd(old', oldbit, bits);
    if n < 0 || w == 0 { return oldbit; }
    r := OrdToPos(new', Remainder(n, w), bits);
  }

  /** A bit of `old` goes to the set bit of `new` with its ordinal, counted round. */
  lemma MappedFacts(b: nat, old': seq<Word>, new': seq<Word>, bits: nat)
    requires bits <= BITS * |old'| && bits <= BITS * |new'| && b < bits && BitAt(old', b)
    requires Rank(new', bits) > 0
    ensures var r := Mapped(b, old', new', bits);
            0 <= r < bits && BitAt(new', r) && Rank(new', r) == Remainder(Rank(old', b), Rank(new', bits))
  {
    PositionFound(new', Remainder(Rank(old', b), Rank(new', bits)), bits);
  }

  lemma MappedBackIs(b: nat, old': seq<Word>, new': seq<Word>, bits: nat)
    requires bits <= BITS * |old'| && bits <= BITS * |new'| && b < bits && BitAt(old', b)
    requires Rank(new', bits) > 0
    ensures var r := MappedBack(b, old', new', bits);
            && Rank(old', bits) > 0 && 0 <= r < bits && BitAt(old', r)
            && Rank(old', r) == Remainder(Remainder(Rank(old', b), Rank(new', bits)), Rank(old', bits))
  {
    hide BitAt, Rank, PositionOf, Remainder, Mapped;
    PositionIs(old', b, bits);
    MappedFacts(b, old', new', bits);
    MappedFacts(Mapped(b, old', new', bits), new', old', bits);
  }

  /** Mapping from `old` to `new` and back again returns every bit of `old` to its place exactly when
      `new` has at least as many bits, or none at all. */
  lemma OldBitsReturnExactlyWhen(old': seq<Word>, new': seq<Word>, bits: nat)
    requires bits <= BITS * |old'| && bits <= BITS * |new'|
    ensures (forall b :: 0 <= b < bits && BitAt(old', b) ==> MappedBack(b, old', new', bits) == b) <==>
            Rank(old', bits) <= Rank(new', bits) || Rank(new', bits) == 0
  {
    hide BitAt, Rank, PositionOf, Remainder, Mapped, MappedBack;
    var v, w := Rank(old', bits), Rank(new', bits);
    if v <= w || w == 0 {
      forall b | 0 <= b < bits && BitAt(old', b)
        ensures MappedBack(b, old', new', bits) == b
      {
        BitReturns(b, old', new', bits);
      }
    } else {
      PositionFound(old', w, bits);
      var b := PositionOf(old', w, bits);
      assert MappedBack(b, old', new', bits) != b by { MappedBackIs(b, old', new', bits); }
    }
  }

  lemma BitReturns(b: nat, old': seq<Word>, new': seq<Word>, bits: nat)
    requires bits <= BITS * |old'| && bits <= BITS * |new'| && b < bits && BitAt(old', b)
    requires Rank(old', bits) <= Rank(new', bits) || Rank(new', bits) == 0
    ensures MappedBack(b, old', new', bits) == b
  {
    hide BitAt, Rank, PositionOf, Remainder;
    if Rank(new', bits) > 0 {
      PositionIs(old', b, bits);
      MappedBackIs(b, old', new', bits);
      PositionIs(old', MappedBack(b, old', new', bits), bits);
    } else if BitAt(new', b) {
      PositionIs(new', b, bits);
    }
  }

  /** With equally many bits, the positions outside `old` that return are those outside `new`. */
  lemma OtherBitsReturnExactlyWhen(b: nat, old': seq<Word>, new': seq<Word>, bits: nat)
    requires bits <= BITS * |old'| && bits <= BITS * |new'| && b < bits && !BitAt(old', b)
    requires Rank(old', bits) == Rank(new', bits)
    ensures MappedBack(b, old', new', bits) == b <==> !BitAt(new', b)
  {
    if BitAt(new', b) {
      PositionIs(new', b, bits);
      MappedFacts(b, new', old', bits);
    }
  }

  /** The set bits below `n`. */
  ghost function Members(words: seq<Word>, n: nat): set<int>
    requires n <= BITS * |words|
  {
    set i | 0 <= i < n && BitAt(words, i)
  }

  ghost function Image(s: set<int>, old': seq<Word>, new': seq<Word>, bits: nat): set<int>
    requires bits <= BITS * |old'| && bits <= BITS * |new'|
  {
    set b | b in s :: Mapped(b, old', new', bits)
  }

  /** Remapping a subset of `old` to `new` and the result back again restores it. */
  lemma RemapsCancel(s: set<int>, old': seq<Word>, new': seq<Word>, bits: nat)
    requires bits <= BITS * |old'| && bits <= BITS * |new'| && s <= Members(old', bits)
    requires Rank(old', bits) <= Rank(new', bits) || Rank(new', bits) == 0
    ensures Image(Image(s, old', new', bits), new', old', bits) == s
  {
    var t := Image(s, old', new', bits);
    forall b | b in s
      ensures Mapped(Mapped(b, old', new', bits), new', old', bits) == b && Mapped(b, old', new', bits) in t
    {
      assert b in Members(old', bits);
      BitReturns(b, old', new', bits);
    }
    hide Mapped, BitAt;
  }

  /** `set_bit`. */
  method SetBit(words: array<Word>, i: nat)
    requires i < BITS * words.Length
    modifies words
    ensures forall k :: 0 <= k < BITS * words.Length ==>
              (BitAt(words[..], k) <==> k == i || BitAt(old(words[..]), k))
    ensures forall p :: 0 <= p < words.Length && p != i / BITS ==> words[p] == old(words[p])
  {
    ghost var before := words[..];
    words[i / BITS] := OrWord(words[i / BITS], Single(i % BITS));
    BitJoins(before, words[..], i);
  }

  lemma BitJoins(before: seq<Word>, after: seq<Word>, i: nat)
    requires i < BITS * |before|
    requires after == before[i / BITS := OrWord(before[i / BITS], Single(i % BITS))]
    ensures forall k :: 0 <= k < BITS * |before| ==> (BitAt(after, k) <==> k == i || BitAt(before, k))
  {
    forall k | 0 <= k < BITS * |before|
      ensures BitAt(after, k) <==> k == i || BitAt(before, k)
    {
      if k / BITS == i / BITS {
        BitOfOr(before[i / BITS], Single(i % BITS), k % BITS);
        BitOfPow2(i % BITS, k % BITS);
      }
    }
  }

  /** How many words hold `bits` bits. */
  function Longs(bits: nat): nat { (bits + BITS - 1) / BITS }

  /** `bitmap_zero`. */
  method Zero(dst: array<Word>, bits: nat)
    requires bits <= BITS * dst.Length
    modifies dst
    ensures forall p :: 0 <= p < dst.Length ==> dst[p] == if p < Longs(bits) then 0 else old(dst[p])
  {
    for k := 0 to Longs(bits)
      invariant forall p :: 0 <= p < dst.Length ==> dst[p] == if p < k then 0 else old(dst[p])
    {
      dst[k] := 0;
    }
  }

  /** Position `i` is where one of the set bits of `src` below `n` goes. */
  ghost predicate Hit(src: seq<Word>, old': seq<Word>, new': seq<Word>, bits: nat, n: nat, i: nat)
    requires bits <= BITS * |src| && bits <= BITS * |old'| && bits <= BITS * |new'| && n <= bits
  {
    exists b :: 0 <= b < n && BitAt(src, b) && Mapped(b, old', new', bits) == i
  }

  lemma HitNext(src: seq<Word>, old': seq<Word>, new': seq<Word>, bits: nat, b: nat, r: nat, i: nat)
    requires bits <= BITS * |src| && bits <= BITS * |old'| && bits <= BITS * |new'| && b < r <= bits
    requires BitAt(src, b) && Clear(src, true, b + 1, r)
    ensures Hit(src, old', new', bits, r, i) <==>
            Mapped(b, old', new', bits) == i || Hit(src, old', new', bits, b, i)
  {
    hide Mapped, BitAt;
  }

  /** The bits of `dst` once those of `src` below `n` have been mapped, or copied. */
  ghost predicate Remapped(dst: seq<Word>, src: seq<Word>, old': seq<Word>, new': seq<Word>, bits: nat, n: nat)
    requires bits <= BITS * |src| && bits <= BITS * |old'| && bits <= BITS * |new'| && n <= bits
  {
    && Longs(bits) <= |dst|
    && forall i :: 0 <= i < BITS * Longs(bits) ==> (BitAt(dst, i) <==> Hit(src, old', new', bits, n, i))
  }

  ghost predicate Copied(dst: seq<Word>, src: seq<Word>, bits: nat, n: nat)
    requires bits <= BITS * |src| && n <= bits
  {
    && Longs(bits) <= |dst|
    && forall i :: 0 <= i < BITS * Longs(bits) ==> (BitAt(dst, i) <==> i < n && BitAt(src, i))
  }

  /** Bit `pos` has been added. */
  ghost predicate Added(before: seq<Word>, after: seq<Word>, pos: nat) {
    && |before| == |after| && pos < BITS * |before|
    && (forall k :: 0 <= k < BITS * |before| ==> (BitAt(after, k) <==> k == pos || BitAt(before, k)))
    && forall p :: 0 <= p < |before| && p != pos / BITS ==> after[p] == before[p]
  }

  /** Where bit `b` is put when `new` is believed to have `w` bits. */
  ghost function Spot(old': seq<Word>, new': seq<Word>, bits: nat, b: nat, w: nat): nat
    requires bits <= BITS * |old'| && bits <= BITS * |new'| && b < bits
  {
    if !BitAt(old', b) || w == 0 then b else PositionOf(new', Remainder(Rank(old', b), w), bits)
  }

  /** What happens to one set bit of `src`. */
  method Place(dst: array<Word>, old': array<Word>, new': array<Word>, bits: nat, b: nat, w: nat)
    requires bits <= BITS * dst.Length && bits <= BITS * old'.Length && bits <= BITS * new'.Length && b < bits
    modifies dst
    ensures var pos := Spot(old(old'[..]), old(new'[..]), bits, b, w);
            pos < bits && Added(old(dst[..]), dst[..], pos)
  {
    hide BitAt, Rank, PositionOf;
    var n := PosToOrd(old', b, bits);
    if n < 0 || w == 0 {
      SetBit(dst, b);
    } else {
      var pos := OrdToPos(new', Remainder(n, w), bits);
      SetBit(dst, pos);
    }
  }

  /** Nothing has been placed yet. */
  lemma NothingPlaced(dst: seq<Word>, src: seq<Word>, bits: nat, b: nat)
    requires bits <= BITS * |src| && bits <= BITS * |dst| && b <= bits && Clear(src, true, 0, b)
    requires forall p :: 0 <= p < Longs(bits) ==> dst[p] == 0
    ensures forall i :: 0 <= i < BITS * Longs(bits) ==> !BitAt(dst, i)
    ensures Copied(dst, src, bits, b) && Rank(dst, bits) == 0
  {
    forall i | 0 <= i < BITS * Longs(bits)
      ensures !BitAt(dst, i)
    {
      BitOfZero(i % BITS);
    }
    RankClear(dst, 0, bits);
  }

  lemma NothingMapped(dst: seq<Word>, src: seq<Word>, old': seq<Word>, new': seq<Word>, bits: nat, b: nat)
    requires bits <= BITS * |src| && bits <= BITS * |old'| && bits <= BITS * |new'| && b <= bits
    requires Copied(dst, src, bits, b) && Clear(src, true, 0, b)
    ensures Remapped(dst, src, old', new', bits, b)
  {
    hide Mapped, BitAt;
  }

  lemma PlacedOne(dst: seq<Word>, dst': seq<Word>, src: seq<Word>, old': seq<Word>, new': seq<Word>, bits: nat,
                  b: nat, r: nat, w: nat)
    requires bits <= BITS * |src| && bits <= BITS * |old'| && bits <= BITS * |new'| && b < bits
    requires BitAt(src, b) && IsNext(src, true, bits, b + 1, r) && Remapped(dst, src, old', new', bits, b)
    requires w == Rank(new', bits) && Added(dst, dst', Spot(old', new', bits, b, w))
    ensures b < r <= bits && Remapped(dst', src, old', new', bits, r)
    ensures |dst'| == |dst| && forall p :: Longs(bits) <= p < |dst| ==> dst'[p] == dst[p]
  {
    MappedInRange(b, old', new', bits);
    assert Spot(old', new', bits, b, w) == Mapped(b, old', new', bits);
    hide Mapped, BitAt, Hit, Spot;
    forall i | 0 <= i < BITS * Longs(bits)
      ensures BitAt(dst', i) <==> Hit(src, old', new', bits, r, i)
    {
      HitNext(src, old', new', bits, b, r, i);
    }
  }

  lemma CopiedOne(dst: seq<Word>, dst': seq<Word>, src: seq<Word>, old': seq<Word>, new': seq<Word>, bits: nat,
                  b: nat, r: nat, w: nat)
    requires bits <= BITS * |src| && bits <= BITS * |old'| && bits <= BITS * |new'| && b < bits
    requires BitAt(src, b) && IsNext(src, true, bits, b + 1, r) && Copied(dst, src, bits, b)
    requires (dst == old' || w == 0) && Added(dst, dst', Spot(old', new', bits, b, w))
    ensures b < r <= bits && Copied(dst', src, bits, r)
    ensures |dst'| == |dst| && forall p :: Longs(bits) <= p < |dst| ==> dst'[p] == dst[p]
  {
    assert !BitAt(dst, b);
    assert Spot(old', new', bits, b, w) == b;
    hide BitAt, Spot;
  }

  lemma AllPlaced(dst: seq<Word>, src: seq<Word>, old': seq<Word>, new': seq<Word>, bits: nat)
    requires bits <= BITS * |src| && bits <= BITS * |old'| && bits <= BITS * |new'| && bits <= BITS * |dst|
    ensures Copied(dst, src, bits, bits) ==> Members(dst, BITS * Longs(bits)) == Members(src, bits)
    ensures Remapped(dst, src, old', new', bits, bits) ==>
              Members(dst, BITS * Longs(bits)) == Image(Members(src, bits), old', new', bits)
  {
    var from, to := Members(src, bits), Members(dst, BITS * Longs(bits));
    if Remapped(dst, src, old', new', bits, bits) {
      forall b | b in from
        ensures Mapped(b, old', new', bits) in to
      {
        var pos := Mapped(b, old', new', bits);
        MappedInRange(b, old', new', bits);
        assert Hit(src, old', new', bits, bits, pos);
      }
      forall i | i in to
        ensures i in Image(from, old', new', bits)
      {
        var b :| 0 <= b < bits && BitAt(src, b) && Mapped(b, old', new', bits) == i;
        assert b in from;
      }
    }
    hide Mapped, BitAt;
  }

  lemma MappedInRange(b: nat, old': seq<Word>, new': seq<Word>, bits: nat)
    requires bits <= BITS * |old'| && bits <= BITS * |new'| && b < bits
    ensures 0 <= Mapped(b, old', new', bits) < bits
  {
    if BitAt(old', b) && Rank(new', bits) > 0 { MappedFacts(b, old', new', bits); }
  }

  /** `bitmap_remap`: the words of `dst` that hold `bits` bits become the image of `src`; if `dst` is `src`
      nothing changes, and if it is one of the two maps `src` is copied. */
  method Remap(dst: array<Word>, src: array<Word>, old': array<Word>, new': array<Word>, bits: nat)
    requires bits <= BITS * dst.Length && bits <= BITS * src.Length
    requires bits <= BITS * old'.Length && bits <= BITS * new'.Length
    modifies dst
    ensures dst == src ==> dst[..] == old(dst[..])
    ensures dst != src && dst != old' && dst != new' ==>
              Members(dst[..], BITS * Longs(bits)) == Image(Members(src[..], bits), old'[..], new'[..], bits)
    ensures dst != src && (dst == old' || dst == new') ==>
              Members(dst[..], BITS * Longs(bits)) == Members(src[..], bits)
    ensures forall p :: Longs(bits) <= p < dst.Length ==> dst[p] == old(dst[p])
  {
    if dst == src { return; }
    Zero(dst, bits);
    ghost var zeroed := dst[..];
    var w := Weight(new', bits);
    var b := FindFirst(src, bits);
    NothingPlaced(dst[..], src[..], bits, b);
    ghost var distinct := dst != old' && dst != new';
    if distinct { NothingMapped(dst[..], src[..], old'[..], new'[..], bits, b); }
    PlaceAll(dst, src, old', new', bits, w, b, distinct);
    AllPlaced(dst[..], src[..], old'[..], new'[..], bits);
  }

  /** The state of `dst` once the bits below `n` have been dealt with. */
  ghost predicate Done(distinct: bool, dst: seq<Word>, src: seq<Word>, old': seq<Word>, new': seq<Word>,
                       bits: nat, n: nat)
    requires bits <= BITS * |src| && bits <= BITS * |old'| && bits <= BITS * |new'| && n <= bits
  {
    if distinct then Remapped(dst, src, old', new', bits, n) else Copied(dst, src, bits, n)
  }

  /** The loop over the set bits of `src`. */
  method PlaceAll(dst: array<Word>, src: array<Word>, old': array<Word>, new': array<Word>, bits: nat, w: nat,
                  first: nat, ghost distinct: bool)
    requires bits <= BITS * dst.Length && bits <= BITS * src.Length && dst != src
    requires bits <= BITS * old'.Length && bits <= BITS * new'.Length
    requires distinct <==> dst != old' && dst != new'
    requires if distinct then w == Rank(new'[..], bits) else dst == old' || w == 0
    requires IsNext(src[..], true, bits, 0, first)
    requires Done(distinct, dst[..], src[..], old'[..], new'[..], bits, first)
    modifies dst
    ensures Done(distinct, dst[..], src[..], old'[..], new'[..], bits, bits)
    ensures forall p :: Longs(bits) <= p < dst.Length ==> dst[p] == old(dst[p])
  {
    hide BitAt, Rank, PositionOf, Clear, Added, Mapped, Remapped, Copied, Spot;
    var b := first;
    while b < bits
      invariant 0 <= b <= bits && (b < bits ==> BitAt(src[..], b))
      invariant Done(distinct, dst[..], src[..], old'[..], new'[..], bits, b)
      invariant forall p :: Longs(bits) <= p < dst.Length ==> dst[p] == old(dst[p])
    {
      ghost var before, from, to := dst[..], old'[..], new'[..];
      Place(dst, old', new', bits, b, w);
      var r := FindNext(src, true, bits, b + 1);
      if distinct {
        PlacedOne(before, dst[..], src[..], from, to, bits, b, r, w);
      } else {
        CopiedOne(before, dst[..], src[..], from, to, bits, b, r, w);
      }
      b := r;
    }
  }

  /** The copy made when `dst` is one of the maps need not be the image. */
  lemma CopyIsNotImage()
    ensures var old': seq<Word>, new': seq<Word>, src: seq<Word> := [1], [2], [1];
            Members(src, 2) == {0} && Image(Members(src, 2), old', new', 2) == {1}
  {
    var old': seq<Word>, new': seq<Word> := [1], [2];
    assert BitAt(old', 0) && !BitAt(old', 1) && !BitAt(new', 0) && BitAt(new', 1);
    assert Rank(new', 1) == 0 && Rank(new', 2) == 1 && Rank(old', 0) == 0;
    assert PositionOf(new', 0, 2) == 1;
    assert Mapped(0, old', new', 2) == 1;
  }

  // ---------- The next free area ----------

  /** `nr` clear bits from the aligned position `a` on. */
  ghost predicate Area(words: seq<Word>, size: nat, nr: nat, mask: nat, a: nat)
    requires size <= BITS * |words|
  {
    And(a, mask) == 0 && a + nr <= size && Clear(words, true, a, a + nr)
  }

  ghost predicate NoArea(words: seq<Word>, size: nat, nr: nat, mask: nat, a: nat, b: nat)
    requires size <= BITS * |words|
  {
    forall x :: a <= x < b ==> !Area(words, size, nr, mask, x)
  }

  /** An area begins at a clear bit. */
  lemma NoAreaBefore(words: seq<Word>, size: nat, nr: nat, k: nat, start: nat, z: nat)
    requires size <= BITS * |words| && nr > 0 && IsNext(words, false, size, start, z)
    ensures And(AlignUp(z, Ones(k)), Ones(k)) == 0 && AlignUp(z, Ones(k)) >= z
    ensures NoArea(words, size, nr, Ones(k), start, AlignUp(z, Ones(k)))
  {
    AlignIsLeast(z, k, z);
    forall x | start <= x < AlignUp(z, Ones(k))
      ensures !Area(words, size, nr, Ones(k), x)
    {
      AlignIsLeast(z, k, x);
      hide AlignUp, And, BitAt;
      if x < z { assert BitAt(words, x); }
    }
  }

  /** An area does not contain a set bit. */
  lemma NoAreaAround(words: seq<Word>, size: nat, nr: nat, mask: nat, a: nat, i: nat)
    requires i < size <= BITS * |words| && a <= i < a + nr && BitAt(words, i)
    ensures NoArea(words, size, nr, mask, a, i + 1)
  {
    hide BitAt, And;
  }

  lemma NoAreaJoins(words: seq<Word>, size: nat, nr: nat, mask: nat, a: nat, b: nat, c: nat, d: nat)
    requires size <= BITS * |words| && c <= b
    requires NoArea(words, size, nr, mask, a, b) && NoArea(words, size, nr, mask, c, d)
    ensures NoArea(words, size, nr, mask, a, d)
  {
    hide Area;
  }

  /** The answer for an area of no bits: the first clear bit, aligned. */
  ghost predicate Trivial(words: seq<Word>, size: nat, mask: nat, start: nat, r: nat)
    requires size <= BITS * |words|
  {
    exists z :: IsNext(words, false, size, start, z) && r == AlignUp(z, mask)
  }

  /** `bitmap_find_next_zero_area`: the least area from `start` on, or a number beyond `size` if there is none. */
  method FindNextZeroArea(words: array<Word>, size: nat, start0: nat, nr: nat, mask: nat, ghost k: nat)
    returns (r: nat)
    requires size <= BITS * words.Length && mask == Ones(k)
    ensures nr > 0 && r <= size ==> start0 <= r && Area(words[..], size, nr, mask, r)
    ensures nr > 0 && r <= size ==> NoArea(words[..], size, nr, mask, start0, r)
    ensures nr > 0 && r > size ==> forall x :: x >= start0 ==> !Area(words[..], size, nr, mask, x)
    ensures nr == 0 ==> Trivial(words[..], size, mask, start0, r)
  {
    hide Ones, And, AlignUp, BitAt;
    var start := start0;
    while true
      invariant start0 <= start && NoArea(words[..], size, nr, mask, start0, start)
      invariant nr == 0 ==> start == start0
      decreases if start < size then size - start else 0
    {
      var z := FindNext(words, false, size, start);
      var index := AlignUp(z, mask);
      if nr > 0 {
        NoAreaBefore(words[..], size, nr, k, start, z);
        NoAreaJoins(words[..], size, nr, mask, start0, start, start, index);
      }
      var end := index + nr;
      if end > size { return end; }
      var i := FindNext(words, true, end, index);
      if i >= end { return index; }
      NoAreaAround(words[..], size, nr, mask, index, i);
      NoAreaJoins(words[..], size, nr, mask, start0, index, index, i + 1);
      start := i + 1;
    }
  }

  /** An area of no bits may be answered with a set bit. */
  lemma TrivialAnswerIsSet(r: nat)
    requires Trivial([5], 3, 1, 0, r)
    ensures r == 2 && BitAt([5], 2)
  {
    var words: seq<Word> := [5];
    assert BitAt(words, 0) && !BitAt(words, 1) && BitAt(words, 2);
    var z :| IsNext(words, false, 3, 0, z) && r == AlignUp(z, 1);
    assert And(2, 1) == 0;
  }
}
