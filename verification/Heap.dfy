/** The array heap with a moving hole (ulib/src/base/heap_prot.h).  `lt` orders the elements and the
    root is a greatest one; `base[..size]` is the heap. */
module Heap {

  ghost predicate WeakOrder<T(!new)>(lt: (T, T) -> bool) {
    && (forall x, y :: lt(x, y) ==> !lt(y, x))
    && (forall x, y, z :: !lt(x, y) && !lt(y, z) ==> !lt(x, z))
  }

  function Parent(i: int): int { (i - 1) / 2 }

  /** `p` is the parent of `i`. */
  predicate ChildOf(i: int, p: int) { i == 2 * p + 1 || i == 2 * p + 2 }

  /** `i` is `top` or lies below it. */
  ghost predicate Below(top: nat, i: nat)
    decreases i
  {
    i == top || (i > top && Below(top, Parent(i)))
  }

  /** Element `i` does not exceed its parent. */
  ghost predicate Ordered<T>(lt: (T, T) -> bool, s: seq<T>, i: nat)
    requires 1 <= i < |s|
  {
    !lt(s[Parent(i)], s[i])
  }

  /** The heap order holds at and below every index from `top` on. */
  ghost predicate HeapFrom<T>(lt: (T, T) -> bool, s: seq<T>, top: nat) {
    forall i :: 1 <= i < |s| && Parent(i) >= top ==> Ordered(lt, s, i)
  }

  ghost predicate IsHeap<T>(lt: (T, T) -> bool, s: seq<T>) { HeapFrom(lt, s, 0) }

  /** The heap order holds from `top` on, except around `hole`: nothing is claimed of the hole's own
      value, but its parent's dominates its children's. */
  ghost predicate HoledHeap<T>(lt: (T, T) -> bool, s: seq<T>, top: nat, hole: nat)
    requires hole < |s|
  {
    && top <= hole && Below(top, hole)
    && (forall i :: 1 <= i < |s| && Parent(i) >= top && i != hole && Parent(i) != hole ==> Ordered(lt, s, i))
    && (hole > top ==> forall i :: 1 <= i < |s| && Parent(i) == hole ==> !lt(s[Parent(hole)], s[i]))
  }

  /** Nothing under the hole exceeds `val`. */
  ghost predicate Dominates<T>(lt: (T, T) -> bool, s: seq<T>, hole: nat, val: T) {
    forall i :: 1 <= i < |s| && Parent(i) == hole ==> !lt(val, s[i])
  }

  /** Moving the element at `p` into the hole at `h` and the hole to `p` loses nothing. */
  lemma MoveHole<T>(s: seq<T>, h: nat, p: nat, val: T)
    requires h < |s| && p < |s| && h != p
    ensures multiset(s[h := s[p]][p := val]) == multiset(s[h := val])
  {
    var t := s[h := val];
    assert s[h := s[p]][p := val] == t[h := t[p]][p := t[h]];
  }

  lemma PushStep<T(!new)>(lt: (T, T) -> bool, s: seq<T>, top: nat, hole: nat, val: T)
    requires WeakOrder(lt) && hole < |s| && HoledHeap(lt, s, top, hole) && Dominates(lt, s, hole, val)
    requires hole > top && lt(s[Parent(hole)], val)
    ensures var s' := s[hole := s[Parent(hole)]];
            HoledHeap(lt, s', top, Parent(hole)) && Dominates(lt, s', Parent(hole), val)
  {
    var p := Parent(hole);
    var s' := s[hole := s[p]];
    assert Below(top, p) && p >= top;
    forall i | 1 <= i < |s'| && Parent(i) >= top && i != p && Parent(i) != p
      ensures Ordered(lt, s', i)
    {
      if Parent(i) != hole { assert Ordered(lt, s, i); }
    }
    forall i | 1 <= i < |s'| && Parent(i) == p
      ensures !lt(val, s'[i])
      ensures p > top ==> !lt(s'[Parent(p)], s'[i])
    {
      if i != hole { assert Ordered(lt, s, i); }
      if p > top { assert Below(top, Parent(p)) && Ordered(lt, s, p); }
    }
  }

  /** The value dropped where its parent is not smaller restores the heap order. */
  lemma PushEnd<T(!new)>(lt: (T, T) -> bool, s: seq<T>, top: nat, hole: nat, val: T)
    requires WeakOrder(lt) && hole < |s| && HoledHeap(lt, s, top, hole) && Dominates(lt, s, hole, val)
    requires hole > top ==> !lt(s[Parent(hole)], val)
    ensures HeapFrom(lt, s[hole := val], top)
  {
    var s' := s[hole := val];
    forall i | 1 <= i < |s'| && Parent(i) >= top
      ensures Ordered(lt, s', i)
    {
      if i != hole && Parent(i) != hole { assert Ordered(lt, s, i); }
    }
  }

  /** `large` is a child of `hole` that no other child exceeds. */
  ghost predicate GreatestChild<T>(lt: (T, T) -> bool, s: seq<T>, hole: nat, large: nat)
    requires large < |s|
  {
    ChildOf(large, hole) && forall i :: 1 <= i < |s| && Parent(i) == hole ==> !lt(s[large], s[i])
  }

  /** A choice between two children, or the only child. */
  lemma ChildChoice<T(!new)>(lt: (T, T) -> bool, s: seq<T>, hole: nat)
    requires WeakOrder(lt)
    ensures var r := 2 * hole + 2;
            && (r < |s| ==> GreatestChild(lt, s, hole, if lt(s[r], s[r - 1]) then r - 1 else r))
            && (r == |s| ==> GreatestChild(lt, s, hole, r - 1))
            && (r > |s| ==> forall val :: Dominates(lt, s, hole, val))
  {
    var r := 2 * hole + 2;
    forall i | 1 <= i < |s| && Parent(i) == hole
      ensures i == r || i == r - 1
    {
      assert i == 2 * hole + 1 || i == 2 * hole + 2;
    }
    assert forall x :: !lt(x, x);
  }

  lemma DescendStep<T(!new)>(lt: (T, T) -> bool, s: seq<T>, top: nat, hole: nat, large: nat)
    requires WeakOrder(lt) && hole < |s| && HoledHeap(lt, s, top, hole)
    requires large < |s| && GreatestChild(lt, s, hole, large)
    ensures HoledHeap(lt, s[hole := s[large]], top, large)
  {
    var s' := s[hole := s[large]];
    assert Parent(large) == hole;
    forall i | 1 <= i < |s'| && Parent(i) >= top && i != large && Parent(i) != large
      ensures Ordered(lt, s', i)
    {
      if i != hole && Parent(i) != hole { assert Ordered(lt, s, i); }
    }
    forall i | 1 <= i < |s'| && Parent(i) == large
      ensures !lt(s'[Parent(large)], s'[i])
    {
      assert Ordered(lt, s, i);
    }
  }

  /** `heap_push`: the value sifts up from the hole, no further than `top`. */
  method Push<T(!new)>(lt: (T, T) -> bool, base: array<T>, ghost size: nat, hole0: nat, top: nat, val: T)
    requires WeakOrder(lt) && hole0 < size <= base.Length
    requires HoledHeap(lt, base[..size], top, hole0) && Dominates(lt, base[..size], hole0, val)
    modifies base
    ensures HeapFrom(lt, base[..size], top)
    ensures multiset(base[..size]) == multiset(old(base[..size])[hole0 := val])
    ensures base[size..] == old(base[size..])
  {
    var hole := hole0;
    var parent: int := Parent(hole);
    while hole > top && lt(base[parent], val)
      invariant 0 <= hole < size && parent == Parent(hole)
      invariant HoledHeap(lt, base[..size], top, hole) && Dominates(lt, base[..size], hole, val)
      invariant multiset(base[..size][hole := val]) == multiset(old(base[..size])[hole0 := val])
      invariant base[size..] == old(base[size..])
    {
      ghost var s := base[..size];
      PushStep(lt, s, top, hole, val);
      MoveHole(s, hole, parent, val);
      base[hole] := base[parent];
      assert base[..size] == s[hole := s[parent]];
      hole := parent;
      parent := Parent(parent);
    }
    PushEnd(lt, base[..size], top, hole, val);
    ghost var s := base[..size];
    base[hole] := val;
    assert base[..size] == s[hole := val];
  }

  /** The hole sinks one level: the element at `large` moves up into it. */
  method Sink<T(!new)>(lt: (T, T) -> bool, base: array<T>, ghost size: nat, ghost top: nat, hole: nat, large: nat,
                       ghost val: T)
    requires WeakOrder(lt) && hole < large < size <= base.Length
    requires HoledHeap(lt, base[..size], top, hole) && GreatestChild(lt, base[..size], hole, large)
    modifies base
    ensures HoledHeap(lt, base[..size], top, large)
    ensures multiset(base[..size][large := val]) == multiset(old(base[..size])[hole := val])
    ensures base[size..] == old(base[size..])
  {
    ghost var s := base[..size];
    DescendStep(lt, s, top, hole, large);
    MoveHole(s, hole, large, val);
    base[hole] := base[large];
    assert base[..size] == s[hole := s[large]];
  }

  /** `heap_adjust`: the hole sinks to a leaf along the greater children, then the value sifts up. */
  method Adjust<T(!new)>(lt: (T, T) -> bool, base: array<T>, size: nat, top: nat, val: T)
    requires WeakOrder(lt) && top < size <= base.Length
    requires HeapFrom(lt, base[..size], top + 1)
    modifies base
    ensures HeapFrom(lt, base[..size], top)
    ensures multiset(base[..size]) == multiset(old(base[..size])[top := val])
    ensures base[size..] == old(base[size..])
  {
    var hole := top;
    var large := 2 * hole + 2;
    assert HoledHeap(lt, base[..size], top, hole);
    hide HeapFrom, HoledHeap, Dominates, GreatestChild, WeakOrder;
    while large < size
      invariant 0 <= hole < size && large == 2 * hole + 2
      invariant HoledHeap(lt, base[..size], top, hole)
      invariant multiset(base[..size][hole := val]) == multiset(old(base[..size])[top := val])
      invariant base[size..] == old(base[size..])
      decreases size - hole
    {
      ChildChoice(lt, base[..size], hole);
      if lt(base[large], base[large - 1]) { large := large - 1; }
      Sink(lt, base, size, top, hole, large, val);
      hole := large;
      large := 2 * large + 2;
    }
    ChildChoice(lt, base[..size], hole);
    if large == size {
      Sink(lt, base, size, top, hole, large - 1, val);
      hole := large - 1;
      ChildChoice(lt, base[..size], hole);
    }
    Push(lt, base, size, hole, top, val);
  }

  /** `heap_init`. */
  method Build<T(!new)>(lt: (T, T) -> bool, base: array<T>, size: nat)
    requires WeakOrder(lt) && size <= base.Length
    modifies base
    ensures IsHeap(lt, base[..size])
    ensures multiset(base[..size]) == multiset(old(base[..size]))
    ensures base[size..] == old(base[size..])
  {
    if size < 2 { return; }
    var parent := size / 2 - 1;
    while true
      invariant 0 <= parent < size
      invariant HeapFrom(lt, base[..size], parent + 1)
      invariant multiset(base[..size]) == multiset(old(base[..size]))
      invariant base[size..] == old(base[size..])
      decreases parent
    {
      ghost var s := base[..size];
      Adjust(lt, base, size, parent, base[parent]);
      assert s[parent := s[parent]] == s;
      if parent == 0 { break; }
      parent := parent - 1;
    }
  }

  /** `heap_pop_to_rear`: the root trades places with the last element, which leaves the heap. */
  method PopToRear<T(!new)>(lt: (T, T) -> bool, base: array<T>, size: nat)
    requires WeakOrder(lt) && 1 <= size <= base.Length && IsHeap(lt, base[..size])
    modifies base
    ensures IsHeap(lt, base[..size - 1])
    ensures base[size - 1] == old(base[0])
    ensures multiset(base[..size]) == multiset(old(base[..size]))
    ensures base[size..] == old(base[size..])
  {
    hide HeapFrom, WeakOrder, Ordered;
    var val := base[size - 1];
    ghost var s, rest, n := base[..size], base[size..], size - 1;
    base[size - 1] := base[0];
    assert base[..n] == s[..n] && base[n..] == [s[0]] + rest;
    PrefixIsHeap(lt, s, n);
    if size > 1 {
      Adjust(lt, base, size - 1, 0, val);
      RootToRear(s, base[..n]);
    }
    TailSplits(base[..], base[..n], [s[0]] + rest, n);
  }

  lemma TailSplits<T>(b: seq<T>, front: seq<T>, tail: seq<T>, n: nat)
    requires n < |b| && front == b[..n] && tail == b[n..]
    ensures b[n] == tail[0] && b[n + 1..] == tail[1..] && b[..n + 1] == front + [tail[0]]
  {
  }

  lemma PrefixIsHeap<T>(lt: (T, T) -> bool, s: seq<T>, n: nat)
    requires n <= |s| && IsHeap(lt, s)
    ensures IsHeap(lt, s[..n]) && HeapFrom(lt, s[..n], 1)
  {
    forall i | 1 <= i < n
      ensures Ordered(lt, s[..n], i)
    {
      assert Ordered(lt, s, i);
    }
  }

  /** Replacing the root by the last element and putting the root at the end permutes the heap. */
  lemma RootToRear<T>(s: seq<T>, t: seq<T>)
    requires 2 <= |s| && |t| == |s| - 1
    requires multiset(t) == multiset(s[..|s| - 1][0 := s[|s| - 1]])
    ensures multiset(t + [s[0]]) == multiset(s)
  {
    var n := |s| - 1;
    var u := s[..n][0 := s[n]];
    assert u + [s[0]] == s[0 := s[n]][n := s[0]];
    assert multiset(t + [s[0]]) == multiset(t) + multiset([s[0]]) == multiset(u + [s[0]]);
  }

  /** The root of a heap is exceeded by nothing in it. */
  lemma {:induction false} RootIsGreatest<T(!new)>(lt: (T, T) -> bool, s: seq<T>, i: nat)
    requires WeakOrder(lt) && IsHeap(lt, s) && i < |s|
    ensures !lt(s[0], s[i])
    decreases i
  {
    if i > 0 {
      RootIsGreatest(lt, s, Parent(i));
      assert Ordered(lt, s, i);
    }
  }

  ghost predicate Sorted<T>(lt: (T, T) -> bool, s: seq<T>) {
    forall i, j :: 0 <= i < j < |s| ==> !lt(s[j], s[i])
  }

  /** What has been moved behind the heap is sorted and not exceeded by what is left in it. */
  ghost predicate SortedFrom<T>(lt: (T, T) -> bool, s: seq<T>, k: nat)
    requires k <= |s|
  {
    forall i, j :: 0 <= i < j < |s| && k <= j ==> !lt(s[j], s[i])
  }

  lemma SortStep<T(!new)>(lt: (T, T) -> bool, s: seq<T>, t: seq<T>, k: nat)
    requires WeakOrder(lt) && 1 <= k <= |s| == |t|
    requires IsHeap(lt, s[..k]) && SortedFrom(lt, s, k)
    requires t[k - 1] == s[0] && multiset(t[..k]) == multiset(s[..k]) && t[k..] == s[k..]
    ensures SortedFrom(lt, t, k - 1) && multiset(t) == multiset(s)
  {
    forall i | 0 <= i < k
      ensures t[i] in s[..k]
    {
      assert t[i] == t[..k][i] && t[i] in multiset(t[..k]);
    }
    forall i, j | 0 <= i < j < |t| && k - 1 <= j
      ensures !lt(t[j], t[i])
    {
      assert j >= k ==> t[j] == t[k..][j - k] == s[j];
      if i < k {
        var i' :| 0 <= i' < k && s[..k][i'] == t[i];
        if j < k { RootIsGreatest(lt, s[..k], i'); }
      } else {
        assert t[i] == t[k..][i - k] == s[i];
      }
    }
    assert t == t[..k] + t[k..] && s == s[..k] + s[k..];
  }

  /** `heap_sort`: turns a heap into an ascending sequence of the same elements. */
  method Sort<T(!new)>(lt: (T, T) -> bool, base: array<T>)
    requires WeakOrder(lt) && IsHeap(lt, base[..])
    modifies base
    ensures Sorted(lt, base[..]) && multiset(base[..]) == multiset(old(base[..]))
  {
    var last := base.Length;
    assert base[..base.Length] == base[..];
    while last > 1
      invariant 0 <= last <= base.Length && (last == 0 ==> base.Length == 0)
      invariant IsHeap(lt, base[..last]) && SortedFrom(lt, base[..], last)
      invariant multiset(base[..]) == multiset(old(base[..]))
    {
      ghost var s := base[..];
      PopToRear(lt, base, last);
      assert base[..][..last] == base[..last] && s[..last] == s[..last];
      SortStep(lt, s, base[..], last);
      last := last - 1;
    }
  }
}
