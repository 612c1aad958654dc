/** Bottom-up merge sort of linked lists (ulib/src/base/sort_list.c). */
module ListSort {
  import opened Common

  /** What callers compare: `cmp(a, b)` has the sign of `a.key - b.key`. */
  class ListNode {
    const key: int
    var next: ListNode?
    var prev: ListNode?

    constructor (key: int)
      ensures this.key == key && next == null
    {
      this.key := key;
      next := null;
    }
  }

  // ---------- Sorting as a function ----------

  /** `x` goes before the elements that are not less. */
  function Insert(x: ListNode, s: seq<ListNode>): seq<ListNode> {
    if s == [] || x.key <= s[0].key then [x] + s else [s[0]] + Insert(x, s[1..])
  }

  function Sort(s: seq<ListNode>): seq<ListNode> {
    if s == [] then [] else Insert(s[0], Sort(s[1..]))
  }

  function Merged(u: seq<ListNode>, v: seq<ListNode>): seq<ListNode>
    decreases |u| + |v|
  {
    if u == [] then v
    else if v == [] then u
    else if u[0].key <= v[0].key then [u[0]] + Merged(u[1..], v)
    else [v[0]] + Merged(u, v[1..])
  }

  ghost predicate Sorted(s: seq<ListNode>) { forall i, j :: 0 <= i < j < |s| ==> s[i].key <= s[j].key }

  /** The elements with key `k`, in order. */
  ghost function WithKey(s: seq<ListNode>, k: int): seq<ListNode> {
    if s == [] then [] else (if s[0].key == k then [s[0]] else []) + WithKey(s[1..], k)
  }

  lemma FirstApart(s: seq<ListNode>)
    requires s != []
    ensures multiset(s) == multiset{s[0]} + multiset(s[1..])
  {
    assert s == [s[0]] + s[1..];
  }

  lemma {:induction false} InsertFacts(x: ListNode, s: seq<ListNode>)
    ensures multiset(Insert(x, s)) == multiset{x} + multiset(s)
    ensures Sorted(s) ==> Sorted(Insert(x, s))
  {
    if s == [] || x.key <= s[0].key {
      assert multiset([x] + s) == multiset{x} + multiset(s);
      hide Insert;
    } else {
      InsertFacts(x, s[1..]);
      var t := Insert(x, s[1..]);
      assert Insert(x, s) == [s[0]] + t;
      hide Insert;
      FirstApart(s);
      FirstApart([s[0]] + t);
      if Sorted(s) { PutFirst(x, s, t); }
    }
  }

  lemma PutFirst(x: ListNode, s: seq<ListNode>, t: seq<ListNode>)
    requires s != [] && Sorted(s) && Sorted(t) && s[0].key <= x.key && multiset(t) == multiset{x} + multiset(s[1..])
    ensures Sorted([s[0]] + t)
  {
    forall j | 0 <= j < |t|
      ensures s[0].key <= t[j].key
    {
      assert t[j] in multiset(t);
      assert t[j] == x || t[j] in s[1..];
    }
  }

  /** The result of sorting is a sorted permutation. */
  lemma {:induction false} SortSorts(s: seq<ListNode>)
    ensures multiset(Sort(s)) == multiset(s) && Sorted(Sort(s)) && |Sort(s)| == |s|
  {
    if s != [] {
      SortSorts(s[1..]);
      InsertFacts(s[0], Sort(s[1..]));
      assert s == [s[0]] + s[1..];
    }
    assert |multiset(Sort(s))| == |multiset(s)|;
  }

  lemma {:induction false} InsertIsStable(x: ListNode, s: seq<ListNode>, k: int)
    requires Sorted(s)
    ensures WithKey(Insert(x, s), k) == (if x.key == k then [x] else []) + WithKey(s, k)
  {
    var t := Insert(x, s);
    if s == [] || x.key <= s[0].key {
      assert t[0] == x && t[1..] == s;
      if x.key != k { assert [] + WithKey(s, k) == WithKey(s, k); }
    } else {
      InsertIsStable(x, s[1..], k);
      assert t[0] == s[0] && t[1..] == Insert(x, s[1..]);
      hide Insert, Sorted;
      if s[0].key == k {
        assert WithKey(t, k) == [s[0]] + WithKey(s[1..], k);
      } else {
        assert WithKey(t, k) == WithKey(t[1..], k) && WithKey(s, k) == WithKey(s[1..], k);
      }
    }
  }

  /** Elements with equal keys keep their order. */
  lemma {:induction false} SortIsStable(s: seq<ListNode>, k: int)
    ensures WithKey(Sort(s), k) == WithKey(s, k)
  {
    if s != [] {
      SortSorts(s[1..]);
      SortIsStable(s[1..], k);
      InsertIsStable(s[0], Sort(s[1..]), k);
    }
  }

  lemma {:induction false} InsertMerged(x: ListNode, u: seq<ListNode>, v: seq<ListNode>)
    requires Sorted(u)
    ensures Insert(x, Merged(u, v)) == Merged(Insert(x, u), v)
    decreases |u| + |v|
  {
    var m, i := Merged(u, v), Insert(x, u);
    if v == [] {
      assert i != [] && Merged(i, v) == i;
    } else if u == [] {
      InsertIntoOne(x, v);
      assert i == [x];
    } else if x.key > u[0].key && u[0].key <= v[0].key {
      InsertMerged(x, u[1..], v);
      assert m[0] == u[0] && m[1..] == Merged(u[1..], v);
      assert i[0] == u[0] && i[1..] == Insert(x, u[1..]);
      assert Merged(i, v) == [u[0]] + Merged(i[1..], v);
      assert Insert(x, m) == [u[0]] + Insert(x, m[1..]);
    } else if x.key <= v[0].key {
      assert i == [x] + u && i[1..] == u && x.key <= m[0].key;
      assert Merged(i, v) == [x] + Merged(u, v);
      assert Insert(x, m) == [x] + m;
    } else {
      InsertMerged(x, u, v[1..]);
      assert m[0] == v[0] && m[1..] == Merged(u, v[1..]);
      assert i[0].key > v[0].key;
      assert Merged(i, v) == [v[0]] + Merged(i, v[1..]);
      assert Insert(x, m) == [v[0]] + Insert(x, m[1..]);
    }
  }

  lemma {:induction false} InsertIntoOne(x: ListNode, v: seq<ListNode>)
    ensures Insert(x, v) == Merged([x], v)
  {
    if v != [] && x.key > v[0].key { InsertIntoOne(x, v[1..]); }
  }

  /** Merging two sorted runs gives what sorting all of them gives. */
  lemma {:induction false} MergeSorts(s: seq<ListNode>, t: seq<ListNode>)
    ensures Merged(Sort(s), Sort(t)) == Sort(s + t)
  {
    if s == [] {
      assert s + t == t;
    } else {
      assert (s + t)[1..] == s[1..] + t && (s + t)[0] == s[0];
      assert Sort(s + t) == Insert(s[0], Sort(s[1..] + t)) && Sort(s) == Insert(s[0], Sort(s[1..]));
      hide Sort, Insert, Merged;
      MergeSorts(s[1..], t);
      SortSorts(s[1..]);
      InsertMerged(s[0], Sort(s[1..]), Sort(t));
    }
  }

  // ---------- Lists ----------

  ghost predicate Apart(s: seq<ListNode>, t: seq<ListNode>) { forall x :: x in s ==> x !in t }

  ghost function After(s: seq<ListNode>, i: nat): ListNode? {
    if i + 1 < |s| then s[i + 1] else null
  }

  /** A null-terminated list from `x`. */
  ghost predicate Chain(s: seq<ListNode>, x: ListNode?)
    reads s
  {
    && Distinct(s) && x == (if s == [] then null else s[0])
    && forall i :: 0 <= i < |s| ==> s[i].next == After(s, i)
  }

  /** A list from `head` as far as `tail`. */
  ghost predicate Upto(head: ListNode, s: seq<ListNode>, tail: ListNode)
    reads head, s
  {
    && Distinct(s) && head !in s
    && tail == (if s == [] then head else s[|s| - 1])
    && (s != [] ==> head.next == s[0])
    && forall i :: 0 <= i < |s| - 1 ==> s[i].next == s[i + 1]
  }

  ghost predicate Within(s: seq<ListNode>, t: set<ListNode>) { forall x :: x in s ==> x in t }

  /** The state of a merge: `w` has been merged, `u` and `v` are left. */
  ghost predicate Merging(head: ListNode, tail: ListNode, a: ListNode?, b: ListNode?,
                          w: seq<ListNode>, u: seq<ListNode>, v: seq<ListNode>)
    reads head, w, u, v
  {
    && Upto(head, w, tail) && Chain(u, a) && Chain(v, b)
    && Apart(u, v) && Apart(w, u) && Apart(w, v) && head !in u && head !in v
  }

  lemma FirstOfChain(s: seq<ListNode>, x: ListNode)
    requires Chain(s, x)
    ensures s != [] && s[0] == x && Chain(s[1..], x.next) && x !in s[1..]
  {
  }

  lemma EndOf(head: ListNode, s: seq<ListNode>, tail: ListNode)
    requires Upto(head, s, tail)
    ensures tail == head || tail in s
  {
  }

  /** One more node is linked behind the tail. */
  method Link(head: ListNode, tail: ListNode, x: ListNode, ghost w: seq<ListNode>)
    requires Upto(head, w, tail) && x !in w && x != head
    modifies tail`next
    ensures Upto(head, w + [x], x) && tail.next == x
  {
    assert forall i :: 0 <= i < |w| - 1 ==> w[i] != tail;
    assert w != [] ==> head != tail;
    tail.next := x;
    ghost var s := w + [x];
    assert forall i :: 0 <= i < |s| - 1 ==> s[i].next == s[i + 1];
  }

  /** What one turn of a merge leaves. */
  lemma MergeTurn(w: seq<ListNode>, u: seq<ListNode>, v: seq<ListNode>, all: seq<ListNode>)
    requires u != [] && v != [] && w + Merged(u, v) == all
    ensures u[0].key <= v[0].key ==> (w + [u[0]]) + Merged(u[1..], v) == all
    ensures u[0].key > v[0].key ==> (w + [v[0]]) + Merged(u, v[1..]) == all
  {
  }

  lemma Swapped(head: ListNode, tail: ListNode, a: ListNode?, b: ListNode?,
                w: seq<ListNode>, u: seq<ListNode>, v: seq<ListNode>)
    requires Merging(head, tail, a, b, w, u, v)
    ensures Merging(head, tail, b, a, w, v, u)
  {
  }

  /** The first node of `u` goes behind the tail. */
  method Take(head: ListNode, tail: ListNode, x: ListNode, ghost b: ListNode?,
              ghost w: seq<ListNode>, ghost u: seq<ListNode>, ghost v: seq<ListNode>)
    requires Merging(head, tail, x, b, w, u, v)
    modifies tail`next
    ensures u != [] && u[0] == x && tail.next == x
    ensures Merging(head, x, x.next, b, w + [x], u[1..], v)
  {
    FirstOfChain(u, x);
    EndOf(head, w, tail);
    hide Chain, Upto, Distinct;
    assert x !in w && x in u && x !in v && x != head;
    assert tail !in u && tail !in v && x != tail;
    Link(head, tail, x, w);
  }

  /** `merge`. */
  method Merge(a0: ListNode?, b0: ListNode?, ghost u0: seq<ListNode>, ghost v0: seq<ListNode>) returns (r: ListNode?)
    requires Chain(u0, a0) && Chain(v0, b0) && Apart(u0, v0)
    modifies set x: ListNode | x in u0 || x in v0
    ensures Chain(Merged(u0, v0), r)
  {
    ghost var all := set x: ListNode | x in u0 || x in v0;
    var head := new ListNode(0);
    var tail: ListNode := head;
    var a, b := a0, b0;
    ghost var u, v := u0, v0;
    ghost var w: seq<ListNode> := [];
    while a != null && b != null
      invariant Merging(head, tail, a, b, w, u, v) && fresh(head)
      invariant Within(u, all) && Within(v, all) && (tail == head || tail in all)
      invariant w + Merged(u, v) == Merged(u0, v0)
      decreases |u| + |v|
    {
      FirstOfChain(u, a);
      FirstOfChain(v, b);
      MergeTurn(w, u, v, Merged(u0, v0));
      Swapped(head, tail, a, b, w, u, v);
      hide Merging, Chain, Upto, Distinct, Merged;
      if a.key <= b.key {
        Take(head, tail, a, b, w, u, v);
        w, u := w + [u[0]], u[1..];
        a := a.next;
      } else {
        Take(head, tail, b, a, w, v, u);
        w, v := w + [v[0]], v[1..];
        b := b.next;
        Swapped(head, tail.next, b, a, w, v, u);
      }
      tail := tail.next;
    }
    r := Finish(head, tail, a, b, w, u, v);
  }

  /** One list is used up and the other is linked behind the tail. */
  method Finish(head: ListNode, tail: ListNode, a: ListNode?, b: ListNode?,
                ghost w: seq<ListNode>, ghost u: seq<ListNode>, ghost v: seq<ListNode>) returns (r: ListNode?)
    requires Merging(head, tail, a, b, w, u, v) && (a == null || b == null)
    modifies tail`next
    ensures Chain(w + Merged(u, v), r) && r == head.next
  {
    if a != null {
      assert v == [];
      LinkRest(head, tail, a, w, u);
    } else {
      assert u == [];
      LinkRest(head, tail, b, w, v);
    }
    r := head.next;
  }

  lemma DistinctParts(s: seq<ListNode>, t: seq<ListNode>)
    requires Distinct(s) && Distinct(t) && Apart(s, t)
    ensures Distinct(s + t)
  {
    var all := s + t;
    forall i, j | 0 <= i < j < |all|
      ensures all[i] != all[j]
    {
      assert i < |s| <= j ==> all[i] in s && all[j] in t;
    }
  }

  /** What is left of one of the lists is linked behind the tail. */
  method LinkRest(head: ListNode, tail: ListNode, x: ListNode?, ghost w: seq<ListNode>, ghost rest: seq<ListNode>)
    requires Upto(head, w, tail) && Chain(rest, x) && Apart(w, rest) && head !in rest
    modifies tail`next
    ensures Chain(w + rest, head.next)
  {
    DistinctParts(w, rest);
    EndOf(head, w, tail);
    assert forall i :: 0 <= i < |w| - 1 ==> w[i] != tail;
    assert forall i :: 0 <= i < |rest| ==> rest[i] != tail;
    tail.next := x;
    ghost var s := w + rest;
    forall i | 0 <= i < |s|
      ensures s[i].next == After(s, i)
    {
      if i >= |w| { assert s[i] == rest[i - |w|]; }
    }
  }

  // ---------- The partial lists ----------

  const SLOTS: nat := 65

  /** What the partial lists hold together: the higher levels came first. */
  ghost function Held(blocks: seq<seq<ListNode>>): seq<ListNode> {
    if blocks == [] then [] else Held(blocks[1..]) + blocks[0]
  }

  /** A block of `w` elements, of `2 * w`, and so on, one for each bit of `n`. */
  ghost predicate Counter(blocks: seq<seq<ListNode>>, n: nat, w: nat) {
    if blocks == [] then n == 0 else
      |blocks[0]| == (if n % 2 == 1 then w else 0) && Counter(blocks[1..], n / 2, 2 * w)
  }

  /** There is a free level. */
  ghost predicate Room(blocks: seq<seq<ListNode>>) {
    blocks != [] && (blocks[0] == [] || Room(blocks[1..]))
  }

  /** A block is carried upwards as far as a free level. */
  ghost function Carried(blocks: seq<seq<ListNode>>, c: seq<ListNode>): seq<seq<ListNode>>
    requires Room(blocks)
  {
    if blocks[0] == [] then [c] + blocks[1..] else [[]] + Carried(blocks[1..], blocks[0] + c)
  }

  lemma {:induction false} CounterHasRoom(blocks: seq<seq<ListNode>>, n: nat, w: nat)
    requires Counter(blocks, n, w) && n + 1 < Pow2(|blocks|)
    ensures Room(blocks)
  {
    if blocks != [] && blocks[0] != [] { CounterHasRoom(blocks[1..], n / 2, 2 * w); }
  }

  /** Carrying counts up by one and keeps the order of what is held. */
  lemma {:induction false} CarryCounts(blocks: seq<seq<ListNode>>, c: seq<ListNode>, n: nat, w: nat)
    requires Room(blocks) && Counter(blocks, n, w) && |c| == w > 0
    ensures Counter(Carried(blocks, c), n + 1, w) && |Carried(blocks, c)| == |blocks|
    ensures Held(Carried(blocks, c)) == Held(blocks) + c
  {
    var b := Carried(blocks, c);
    if blocks[0] == [] {
      assert b[1..] == blocks[1..];
    } else {
      CarryCounts(blocks[1..], blocks[0] + c, n / 2, 2 * w);
      assert b[1..] == Carried(blocks[1..], blocks[0] + c);
    }
  }

  /** The level of bit `k` holds `2^k` elements if the bit is set and none if it is not. */
  lemma {:induction false} LevelIsBit(blocks: seq<seq<ListNode>>, n: nat, w: nat, k: nat)
    requires Counter(blocks, n, w) && k < |blocks|
    ensures Pow2(k) > 0 && |blocks[k]| == if (n / Pow2(k)) % 2 == 1 then w * Pow2(k) else 0
    decreases k
  {
    if k > 0 {
      LevelIsBit(blocks[1..], n / 2, 2 * w, k - 1);
      var p := Pow2(k - 1);
      assert Pow2(k) == 2 * p && blocks[1..][k - 1] == blocks[k];
      hide Counter, Pow2;
      DivideTwice(n, p);
      Regrouped(w, p);
    }
  }

  lemma Regrouped(w: nat, p: nat)
    ensures (2 * w) * p == w * (2 * p)
  {
  }

  lemma DivideTwice(n: nat, p: nat)
    requires p > 0
    ensures (n / 2) / p == n / (2 * p)
  {
    var q, r := n / (2 * p), n % (2 * p);
    assert n == q * (2 * p) + r && q * (2 * p) == 2 * (q * p);
    assert n / 2 == q * p + r / 2 && 0 <= r / 2 < p;
    assert (n / 2) / p == q by { Division(n / 2, q, r / 2, p); }
  }

  lemma {:induction false} MergedElements(u: seq<ListNode>, v: seq<ListNode>)
    ensures multiset(Merged(u, v)) == multiset(u) + multiset(v)
    decreases |u| + |v|
  {
    if u != [] && v != [] {
      assert u == [u[0]] + u[1..] && v == [v[0]] + v[1..];
      if u[0].key <= v[0].key { MergedElements(u[1..], v); } else { MergedElements(u, v[1..]); }
    }
  }

  ghost predicate PartsOk(part: seq<ListNode?>, lists: seq<seq<ListNode>>, all: set<ListNode>)
    reads all
  {
    |part| == |lists| && forall k :: 0 <= k < |lists| ==> Within(lists[k], all) && Chain(lists[k], part[k])
  }

  /** No two of the lists share a node. */
  ghost predicate Separate(lists: seq<seq<ListNode>>, c: seq<ListNode>, rest: seq<ListNode>) {
    && (forall j, k :: 0 <= j < k < |lists| ==> Apart(lists[j], lists[k]))
    && (forall k :: 0 <= k < |lists| ==> Apart(lists[k], c) && Apart(lists[k], rest))
    && Apart(c, rest)
  }

  lemma MergedIn(u: seq<ListNode>, v: seq<ListNode>)
    ensures forall x :: x in Merged(u, v) ==> x in u || x in v
  {
    MergedElements(u, v);
    forall x | x in Merged(u, v)
      ensures x in u || x in v
    {
      assert x in multiset(Merged(u, v));
    }
  }

  lemma SeparateMerged(lists: seq<seq<ListNode>>, c: seq<ListNode>, rest: seq<ListNode>, lev: nat)
    requires Separate(lists, c, rest) && lev < |lists|
    ensures Separate(lists[lev := []], Merged(lists[lev], c), rest)
    ensures forall x :: x in Merged(lists[lev], c) ==> x in lists[lev] || x in c
  {
    var m, lists' := Merged(lists[lev], c), lists[lev := []];
    MergedIn(lists[lev], c);
    ApartFrom(lists, c, rest, lev);
    hide Merged;
    forall k | 0 <= k < |lists'|
      ensures Apart(lists'[k], m) && Apart(lists'[k], rest)
    {
      if k != lev { assert Apart(lists[k], lists[lev]) && Apart(lists[k], c); }
    }
  }

  lemma ApartFrom(lists: seq<seq<ListNode>>, c: seq<ListNode>, rest: seq<ListNode>, lev: nat)
    requires Separate(lists, c, rest) && lev < |lists|
    ensures Apart(lists[lev], c) && Apart(rest, lists[lev]) && Apart(rest, c)
    ensures forall k :: 0 <= k < |lists| && k != lev ==> Apart(lists[k], lists[lev]) && Apart(lists[k], c)
  {
    forall k | 0 <= k < |lists| && k != lev
      ensures Apart(lists[k], lists[lev])
    {
      assert k > lev ==> Apart(lists[lev], lists[k]);
    }
  }

  /** `cur = merge(part[lev], cur); part[lev] = NULL`. */
  method MergeLevel(part: array<ListNode?>, lev: nat, cur: ListNode?, ghost lists: seq<seq<ListNode>>,
                    ghost c: seq<ListNode>, ghost rest: seq<ListNode>, ghost list: ListNode?, ghost all: set<ListNode>)
    returns (r: ListNode?)
    requires lev < part.Length && PartsOk(part[..], lists, all) && Chain(c, cur) && Chain(rest, list)
    requires Within(c, all) && Separate(lists, c, rest)
    modifies part, all
    ensures Chain(Merged(lists[lev], c), r) && Chain(rest, list) && Within(Merged(lists[lev], c), all)
    ensures PartsOk(part[..], lists[lev := []], all)
    ensures part[..] == old(part[..])[lev := null]
  {
    SeparateMerged(lists, c, rest, lev);
    ghost var was, lists' := part[..], lists[lev := []];
    ApartFrom(lists, c, rest, lev);
    assert Chain(lists[lev], was[lev]) && Within(lists[lev], all);
    assert Within(Merged(lists[lev], c), all);
    hide Distinct, Merged, Separate;
    r := Merge(part[lev], cur, lists[lev], c);
    assert Chain(rest, list);
    forall k | 0 <= k < |lists| && k != lev
      ensures Within(lists[k], all) && Chain(lists[k], was[k])
    {
    }
    part[lev] := null;
    assert part[..] == was[lev := null];
  }

  ghost function Sorts(blocks: seq<seq<ListNode>>): (r: seq<seq<ListNode>>)
    ensures |r| == |blocks| && forall k :: 0 <= k < |blocks| ==> r[k] == Sort(blocks[k])
  {
    if blocks == [] then [] else [Sort(blocks[0])] + Sorts(blocks[1..])
  }

  ghost function Empties(n: nat): (r: seq<seq<ListNode>>)
    ensures |r| == n && forall k :: 0 <= k < n ==> r[k] == []
  {
    if n == 0 then [] else [[]] + Empties(n - 1)
  }

  /** Blocks `b` and the carry `c` after `lev` levels have been merged. */
  ghost predicate Carrying(blocks: seq<seq<ListNode>>, c0: seq<ListNode>, b: seq<seq<ListNode>>, c: seq<ListNode>,
                           lev: nat)
    requires Room(blocks)
  {
    && lev < |b| == |blocks| && c != [] && Room(b[lev..])
    && (forall k :: 0 <= k < lev ==> b[k] == [])
    && (forall k :: lev <= k < |b| ==> b[k] == blocks[k])
    && Empties(lev) + Carried(b[lev..], c) == Carried(blocks, c0)
  }

  lemma CarryStarts(blocks: seq<seq<ListNode>>, c: seq<ListNode>)
    requires Room(blocks) && c != []
    ensures Carrying(blocks, c, blocks, c, 0)
  {
    assert blocks[0..] == blocks;
    assert Empties(0) + Carried(blocks, c) == Carried(blocks, c);
  }

  lemma CarryGoesOn(blocks: seq<seq<ListNode>>, c0: seq<ListNode>, b: seq<seq<ListNode>>, c: seq<ListNode>, lev: nat)
    requires Room(blocks) && Carrying(blocks, c0, b, c, lev) && b[lev] != []
    ensures Carrying(blocks, c0, b[lev := []], b[lev] + c, lev + 1)
  {
    var b' := b[lev := []];
    assert b[lev..][0] == b[lev] && b'[lev + 1..] == b[lev..][1..];
    assert Carried(b[lev..], c) == [[]] + Carried(b'[lev + 1..], b[lev] + c);
    assert Empties(lev) + [[]] == Empties(lev + 1);
    assert Empties(lev) + ([[]] + Carried(b'[lev + 1..], b[lev] + c)) ==
           (Empties(lev) + [[]]) + Carried(b'[lev + 1..], b[lev] + c);
  }

  lemma CarryEnds(blocks: seq<seq<ListNode>>, c0: seq<ListNode>, b: seq<seq<ListNode>>, c: seq<ListNode>, lev: nat)
    requires Room(blocks) && Carrying(blocks, c0, b, c, lev) && b[lev] == []
    ensures b[lev := c] == Carried(blocks, c0)
  {
    assert b[lev..][0] == b[lev];
    assert Carried(b[lev..], c) == [c] + b[lev..][1..];
    Replaced(b, lev, c, Empties(lev));
  }

  lemma Replaced(b: seq<seq<ListNode>>, lev: nat, c: seq<ListNode>, front: seq<seq<ListNode>>)
    requires lev < |b| && |front| == lev && forall k :: 0 <= k < lev ==> b[k] == front[k]
    ensures b[lev := c] == front + ([c] + b[lev..][1..])
  {
    hide *;
  }

  lemma SortedEmpty(s: seq<ListNode>)
    ensures Sort(s) == [] <==> s == []
  {
    SortSorts(s);
  }

  /** The heap while block `c` is carried upwards: `cur` is its list, and `rest` is what has not been reached. */
  ghost predicate Depositing(part: seq<ListNode?>, blocks: seq<seq<ListNode>>, cur: ListNode?, c: seq<ListNode>,
                             list: ListNode?, rest: seq<ListNode>, all: set<ListNode>)
    requires Within(Sort(c), all) && Within(rest, all)
    reads all
  {
    && PartsOk(part, Sorts(blocks), all) && Chain(Sort(c), cur) && Chain(rest, list)
    && Separate(Sorts(blocks), Sort(c), rest)
  }

  /** One turn of the inner loop. */
  method CarryLevel(part: array<ListNode?>, lev: nat, cur: ListNode?, ghost blocks: seq<seq<ListNode>>,
                    ghost c: seq<ListNode>,
                    ghost rest: seq<ListNode>, ghost list: ListNode?, ghost all: set<ListNode>) returns (r: ListNode?)
    requires Within(Sort(c), all) && Within(rest, all) && lev < |blocks|
    requires Depositing(part[..], blocks, cur, c, list, rest, all)
    modifies part, all
    ensures Within(Sort(blocks[lev] + c), all)
    ensures Depositing(part[..], blocks[lev := []], r, blocks[lev] + c, list, rest, all)
  {
    assert |part[..]| == |blocks|;
    MergeSorts(blocks[lev], c);
    SeparateMerged(Sorts(blocks), Sort(c), rest, lev);
    SortsUpdate(blocks, lev, []);
    hide Sort, Sorts, Merged, Chain, Separate, PartsOk, Within;
    r := MergeLevel(part, lev, cur, Sorts(blocks), Sort(c), rest, list, all);
  }

  /** The carry goes into the free slot. */
  method PutDown(part: array<ListNode?>, lev: nat, cur: ListNode?, ghost blocks: seq<seq<ListNode>>,
                 ghost c: seq<ListNode>,
                 ghost rest: seq<ListNode>, ghost list: ListNode?, ghost all: set<ListNode>)
    requires Within(Sort(c), all) && Within(rest, all) && lev < |blocks| && blocks[lev] == []
    requires Depositing(part[..], blocks, cur, c, list, rest, all)
    modifies part
    ensures Within(Sort([]), all) && Depositing(part[..], blocks[lev := c], null, [], list, rest, all)
  {
    assert |part[..]| == |blocks|;
    SortsUpdate(blocks, lev, c);
    Filled(part[..], Sorts(blocks), Sort(c), rest, lev, cur, all);
    ghost var was := part[..];
    part[lev] := cur;
    assert part[..] == was[lev := cur];
    assert Chain([], null);
  }

  /** The inner loop of `list_sort`: `cur` is merged upwards as far as a free slot. */
  method Deposit(part: array<ListNode?>, cur0: ListNode?, ghost blocks0: seq<seq<ListNode>>, ghost c0: seq<ListNode>,
                 ghost rest: seq<ListNode>, ghost list: ListNode?, ghost all: set<ListNode>)
    returns (lev: nat, ghost blocks: seq<seq<ListNode>>)
    requires Within(Sort(c0), all) && Within(rest, all) && Room(blocks0) && c0 != []
    requires Depositing(part[..], blocks0, cur0, c0, list, rest, all)
    modifies part, all
    ensures blocks == Carried(blocks0, c0) && lev < |blocks| == |blocks0| && blocks[lev] != []
    ensures forall k :: lev < k < |blocks| ==> blocks[k] == blocks0[k]
    ensures Within(Sort([]), all) && Depositing(part[..], blocks, null, [], list, rest, all)
  {
    hide *;
    var cur := cur0;
    ghost var c := c0;
    lev, blocks := 0, blocks0;
    CarryStarts(blocks0, c0);
    CarryFacts(blocks0, c0, blocks, c, lev);
    SlotsOf(part[..], blocks, cur, c, list, rest, all);
    while part[lev] != null
      invariant Carrying(blocks0, c0, blocks, c, lev) && lev < |blocks| == part.Length
      invariant Within(Sort(c), all) && Depositing(part[..], blocks, cur, c, list, rest, all)
      decreases |blocks| - lev
    {
      SlotsOf(part[..], blocks, cur, c, list, rest, all);
      CarryGoesOn(blocks0, c0, blocks, c, lev);
      cur := CarryLevel(part, lev, cur, blocks, c, rest, list, all);
      c, blocks := blocks[lev] + c, blocks[lev := []];
      lev := lev + 1;
      CarryFacts(blocks0, c0, blocks, c, lev);
    }
    SlotsOf(part[..], blocks, cur, c, list, rest, all);
    CarryFacts(blocks0, c0, blocks, c, lev);
    CarryEnds(blocks0, c0, blocks, c, lev);
    PutDown(part, lev, cur, blocks, c, rest, list, all);
    blocks := blocks[lev := c];
  }

  lemma CarryFacts(blocks: seq<seq<ListNode>>, c0: seq<ListNode>, b: seq<seq<ListNode>>, c: seq<ListNode>, lev: nat)
    requires Room(blocks) && Carrying(blocks, c0, b, c, lev)
    ensures lev < |b| == |blocks| && c != [] && forall k :: lev <= k < |b| ==> b[k] == blocks[k]
  {
  }

  lemma SlotsOf(part: seq<ListNode?>, blocks: seq<seq<ListNode>>, cur: ListNode?, c: seq<ListNode>,
                list: ListNode?, rest: seq<ListNode>, all: set<ListNode>)
    requires Within(Sort(c), all) && Within(rest, all) && Depositing(part, blocks, cur, c, list, rest, all)
    ensures |part| == |blocks| && forall k :: 0 <= k < |blocks| ==> (part[k] == null <==> blocks[k] == [])
  {
    hide Sort, Sorts, PartsOk;
    SlotsMatch(part, blocks, all);
  }

  lemma SortsUpdate(blocks: seq<seq<ListNode>>, lev: nat, c: seq<ListNode>)
    requires lev < |blocks|
    ensures Sorts(blocks[lev := c]) == Sorts(blocks)[lev := Sort(c)] && Sort([]) == []
  {
  }

  lemma SlotsMatch(part: seq<ListNode?>, blocks: seq<seq<ListNode>>, all: set<ListNode>)
    requires PartsOk(part, Sorts(blocks), all)
    ensures |part| == |blocks| && forall k :: 0 <= k < |blocks| ==> (part[k] == null <==> blocks[k] == [])
  {
    hide Sort, Sorts, Chain;
    forall k | 0 <= k < |blocks|
      ensures part[k] == null <==> blocks[k] == []
    {
      assert Chain(Sorts(blocks)[k], part[k]);
      SlotEmpty(blocks[k], part[k]);
    }
  }

  /** A list goes into a free slot. */
  lemma Filled(part: seq<ListNode?>, lists: seq<seq<ListNode>>, c: seq<ListNode>, rest: seq<ListNode>, lev: nat,
               x: ListNode?, all: set<ListNode>)
    requires PartsOk(part, lists, all) && Separate(lists, c, rest) && Chain(c, x) && Within(c, all) && lev < |lists|
    ensures PartsOk(part[lev := x], lists[lev := c], all)
    ensures lists[lev] == [] ==> Separate(lists[lev := c], [], rest)
  {
    hide Chain;
    var lists' := lists[lev := c];
    forall j, k | 0 <= j < k < |lists'|
      ensures Apart(lists'[j], lists'[k])
    {
      assert Apart(lists[j], lists[k]) && Apart(lists[k], c) && Apart(lists[j], c);
    }
  }

  lemma SlotEmpty(b: seq<ListNode>, x: ListNode?)
    requires Chain(Sort(b), x)
    ensures b == [] <==> x == null
  {
    SortedEmpty(b);
  }

  /** The partial lists after `n` elements: one for each bit of `n`, none above `top`. */
  ghost predicate Distributed(blocks: seq<seq<ListNode>>, n: nat, top: nat) {
    && |blocks| == SLOTS && Counter(blocks, n, 1) && top < SLOTS
    && (forall k :: top < k < SLOTS ==> blocks[k] == [])
    && (if n > 0 then blocks[top] != [] else top == 0)
  }

  lemma {:induction false} NothingHeld(n: nat, w: nat)
    ensures Held(Empties(n)) == [] && Counter(Empties(n), 0, w)
  {
    if n > 0 {
      assert Empties(n)[1..] == Empties(n - 1);
      NothingHeld(n - 1, 2 * w);
    }
  }

  lemma {:induction false} NoLists(n: nat)
    ensures Sorts(Empties(n)) == Empties(n)
  {
    if n > 0 {
      assert Empties(n)[1..] == Empties(n - 1);
      NoLists(n - 1);
    }
  }

  lemma DepositCan(blocks: seq<seq<ListNode>>, n: nat, top: nat)
    requires Distributed(blocks, n, top) && n < Pow2(64)
    ensures Room(blocks)
  {
    Pow2Grows(64, 64);
    assert Pow2(SLOTS) == 2 * Pow2(64);
    CounterHasRoom(blocks, n, 1);
  }

  /** What has been distributed after one more element. */
  lemma Deposited(blocks: seq<seq<ListNode>>, n: nat, top: nat, x: ListNode, lev: nat, b: seq<seq<ListNode>>)
    requires Distributed(blocks, n, top) && Room(blocks) && b == Carried(blocks, [x])
    requires lev < |b| == |blocks| && b[lev] != [] && forall k :: lev < k < |b| ==> b[k] == blocks[k]
    ensures Distributed(b, n + 1, if lev > top then lev else top) && Held(b) == Held(blocks) + [x]
  {
    CarryCounts(blocks, [x], n, 1);
    hide Carried, Counter, Held, Room;
  }

  lemma NothingDistributed(all: set<ListNode>, part: seq<ListNode?>, list: ListNode?, rest: seq<ListNode>)
    requires Chain(rest, list) && Within(rest, all) && |part| == SLOTS && forall k :: 0 <= k < SLOTS ==> part[k] == null
    ensures Distributed(Empties(SLOTS), 0, 0) && Held(Empties(SLOTS)) + rest == rest
    ensures Within(Sort([]), all) && Depositing(part, Empties(SLOTS), null, [], list, rest, all)
  {
    NothingHeld(SLOTS, 1);
    NoLists(SLOTS);
    assert Sort([]) == [] && Chain([], null);
    hide Held, Counter, Sorts, Sort;
  }

  /** One turn of the main loop of `list_sort`. */
  method DepositNext(part: array<ListNode?>, cur: ListNode, ghost s: seq<ListNode>, ghost blocks: seq<seq<ListNode>>,
                     ghost rest: seq<ListNode>, ghost n: nat, ghost top: nat, ghost all: set<ListNode>)
    returns (list: ListNode?, lev: nat, ghost b: seq<seq<ListNode>>)
    requires Within(Sort([]), all) && Within(rest, all) && Depositing(part[..], blocks, null, [], cur, rest, all)
    requires Distributed(blocks, n, top) && Held(blocks) + rest == s && n < Pow2(64)
    modifies part, all
    ensures rest != [] && Within(rest[1..], all) && Depositing(part[..], b, null, [], list, rest[1..], all)
    ensures Distributed(b, n + 1, if lev > top then lev else top) && Held(b) + rest[1..] == s
  {
    hide *;
    list := Detach(part, cur, blocks, rest, all);
    DepositCan(blocks, n, top);
    lev, b := Deposit(part, cur, blocks, [cur], rest[1..], list, all);
    Deposited(blocks, n, top, cur, lev, b);
    assert rest == [cur] + rest[1..];
    assert (Held(blocks) + [cur]) + rest[1..] == Held(blocks) + rest;
  }

  /** The main loop of `list_sort`: element after element is deposited. */
  method Distribute(part: array<ListNode?>, list0: ListNode?, ghost s0: seq<ListNode>, ghost all: set<ListNode>)
    returns (top: nat, ghost blocks: seq<seq<ListNode>>)
    requires Chain(s0, list0) && Within(s0, all) && |s0| < Pow2(64)
    requires part.Length == SLOTS && forall k :: 0 <= k < SLOTS ==> part[k] == null
    modifies part, all
    ensures Distributed(blocks, |s0|, top) && Held(blocks) == s0
    ensures PartsOk(part[..], Sorts(blocks), all) && Separate(Sorts(blocks), [], [])
  {
    hide Pow2, Distinct, Separate, Upto, Backed;
    NothingDistributed(all, part[..], list0, s0);
    ghost var rest, n := s0, 0;
    var list := list0;
    top, blocks := 0, Empties(SLOTS);
    while list != null
      invariant Within(Sort([]), all) && Within(rest, all)
      invariant n + |rest| == |s0| && Held(blocks) + rest == s0 && Distributed(blocks, n, top)
      invariant Depositing(part[..], blocks, null, [], list, rest, all)
      decreases |rest|
    {
      hide *;
      var lev;
      ListLeft(part[..], list, blocks, rest, all);
      list, lev, blocks := DepositNext(part, list, s0, blocks, rest, n, top, all);
      if lev > top { top := lev; }
      rest, n := rest[1..], n + 1;
    }
    AllDeposited(part[..], blocks, rest, all);
    assert Held(blocks) + [] == Held(blocks);
  }

  lemma ListLeft(part: seq<ListNode?>, list: ListNode?, blocks: seq<seq<ListNode>>, rest: seq<ListNode>,
                 all: set<ListNode>)
    requires Within(Sort([]), all) && Within(rest, all) && Depositing(part, blocks, null, [], list, rest, all)
    ensures list != null <==> rest != []
  {
  }

  lemma AllDeposited(part: seq<ListNode?>, blocks: seq<seq<ListNode>>, rest: seq<ListNode>, all: set<ListNode>)
    requires Within(Sort([]), all) && Within(rest, all) && Depositing(part, blocks, null, [], null, rest, all)
    ensures rest == [] && PartsOk(part, Sorts(blocks), all) && Separate(Sorts(blocks), [], [])
  {
    assert Sort([]) == [];
  }

  /** `cur = list; list = list->next; cur->next = NULL`. */
  method Detach(part: array<ListNode?>, cur: ListNode, ghost blocks: seq<seq<ListNode>>, ghost rest: seq<ListNode>,
                ghost all: set<ListNode>) returns (list: ListNode?)
    requires Within(Sort([]), all) && Within(rest, all) && Depositing(part[..], blocks, null, [], cur, rest, all)
    modifies all
    ensures rest != [] && rest[0] == cur && Within(Sort([cur]), all) && Within(rest[1..], all)
    ensures Depositing(part[..], blocks, cur, [cur], list, rest[1..], all)
  {
    FirstOfChain(rest, cur);
    ghost var lists := Sorts(blocks);
    assert forall k :: 0 <= k < |lists| ==> cur !in lists[k] by {
      forall k | 0 <= k < |lists|
        ensures cur !in lists[k]
      {
        assert Apart(lists[k], rest);
      }
    }
    list := cur.next;
    cur.next := null;
    assert Sort([cur]) == [cur];
    hide Sorts, Sort;
    forall k | 0 <= k < |lists|
      ensures Within(lists[k], all) && Chain(lists[k], part[k])
    {
    }
  }

  // ---------- Putting the list back together ----------

  lemma {:induction false} HeldEnd(b: seq<seq<ListNode>>, c: seq<ListNode>)
    ensures Held(b + [c]) == c + Held(b)
  {
    if b == [] {
      assert (b + [c])[1..] == [];
      assert [] + c == c == c + [];
    } else {
      HeldEnd(b[1..], c);
      assert (b + [c])[1..] == b[1..] + [c];
      assert (c + Held(b[1..])) + b[0] == c + (Held(b[1..]) + b[0]);
    }
  }

  lemma {:induction false} HeldTop(blocks: seq<seq<ListNode>>, top: nat)
    requires top < |blocks| && forall k :: top < k < |blocks| ==> blocks[k] == []
    ensures Held(blocks) == blocks[top] + Held(blocks[..top])
    decreases |blocks|
  {
    var n := |blocks| - 1;
    if top == n {
      HeldEnd(blocks[..n], blocks[n]);
      assert blocks[..n] + [blocks[n]] == blocks;
    } else {
      HeldTop(blocks[..n], top);
      HeldEnd(blocks[..n], blocks[n]);
      assert blocks[..n] + [blocks[n]] == blocks && blocks[..n][..top] == blocks[..top];
      assert [] + Held(blocks[..n]) == Held(blocks[..n]);
    }
  }

  /** The lists from level `lev` on are still there; the others have been merged to `list`. */
  ghost predicate Gathering(part: seq<ListNode?>, blocks: seq<seq<ListNode>>, lev: nat, list: ListNode?,
                            acc: seq<ListNode>, all: set<ListNode>)
    requires lev <= |part| == |blocks| && Within(Sort(acc), all)
    reads all
  {
    && PartsOk(part[lev..], Sorts(blocks[lev..]), all) && Chain(Sort(acc), list)
    && Separate(Sorts(blocks[lev..]), Sort(acc), [])
  }

  lemma GatherStarts(part: seq<ListNode?>, blocks: seq<seq<ListNode>>, all: set<ListNode>)
    requires PartsOk(part, Sorts(blocks), all) && Separate(Sorts(blocks), [], [])
    ensures |part| == |blocks| && Within(Sort([]), all) && Gathering(part, blocks, 0, null, [], all)
  {
    PartsLength(part, Sorts(blocks), all);
    EmptyList(all);
    hide *;
    assert blocks[0..] == blocks && part[0..] == part;
    GatheringIs(part, blocks, 0, null, [], all);
  }

  lemma EmptyList(all: set<ListNode>)
    ensures Sort([]) == [] && Chain([], null) && Within([], all)
  {
  }

  lemma GatheringIs(part: seq<ListNode?>, blocks: seq<seq<ListNode>>, lev: nat, list: ListNode?, acc: seq<ListNode>,
                    all: set<ListNode>)
    requires lev <= |part| == |blocks| && Within(Sort(acc), all)
    requires PartsOk(part[lev..], Sorts(blocks[lev..]), all) && Chain(Sort(acc), list)
    requires Separate(Sorts(blocks[lev..]), Sort(acc), [])
    ensures Gathering(part, blocks, lev, list, acc, all)
  {
  }

  lemma PartsLength(part: seq<ListNode?>, lists: seq<seq<ListNode>>, all: set<ListNode>)
    requires PartsOk(part, lists, all)
    ensures |part| == |lists|
  {
  }

  /** What is known of the next level. */
  lemma GatherNext(part: seq<ListNode?>, blocks: seq<seq<ListNode>>, lev: nat, list: ListNode?, acc: seq<ListNode>,
                   all: set<ListNode>)
    requires lev < |part| == |blocks| && Within(Sort(acc), all) && Gathering(part, blocks, lev, list, acc, all)
    ensures Chain(Sort(blocks[lev]), part[lev]) && Within(Sort(blocks[lev]), all) && Chain(Sort(acc), list)
    ensures part[lev] == null <==> blocks[lev] == []
    ensures PartsOk(part[lev + 1..], Sorts(blocks[lev + 1..]), all)
    ensures Separate(Sorts(blocks[lev + 1..]), Sort(blocks[lev]), Sort(acc))
  {
    var lists, rest := Sorts(blocks[lev..]), Sorts(blocks[lev + 1..]);
    assert blocks[lev..][1..] == blocks[lev + 1..] && part[lev..][1..] == part[lev + 1..];
    assert lists[0] == Sort(blocks[lev]) && part[lev..][0] == part[lev] && lists == [lists[0]] + rest;
    SlotEmpty(blocks[lev], part[lev]);
    hide Chain, Sort, Sorts;
    forall k | 0 <= k < |rest|
      ensures Apart(rest[k], lists[0]) && Apart(rest[k], Sort(acc))
      ensures Within(rest[k], all) && Chain(rest[k], part[lev + 1..][k])
    {
      assert rest[k] == lists[k + 1] && Apart(lists[0], lists[k + 1]);
      assert part[lev + 1..][k] == part[lev..][k + 1];
    }
    forall j, k | 0 <= j < k < |rest|
      ensures Apart(rest[j], rest[k])
    {
      assert rest[j] == lists[j + 1] && rest[k] == lists[k + 1];
    }
  }

  /** Merging two lists leaves the others alone. */
  method MergeBeside(a: ListNode?, b: ListNode?, ghost u: seq<ListNode>, ghost v: seq<ListNode>,
                     ghost part: seq<ListNode?>, ghost lists: seq<seq<ListNode>>, ghost all: set<ListNode>)
    returns (r: ListNode?)
    requires Chain(u, a) && Chain(v, b) && Within(u, all) && Within(v, all)
    requires PartsOk(part, lists, all) && Separate(lists, u, v)
    modifies all
    ensures Chain(Merged(u, v), r) && Within(Merged(u, v), all)
    ensures PartsOk(part, lists, all) && Separate(lists, Merged(u, v), [])
  {
    MergedIn(u, v);
    hide Merged, Distinct;
    r := Merge(a, b, u, v);
    forall k | 0 <= k < |lists|
      ensures Within(lists[k], all) && Chain(lists[k], part[k]) && Apart(lists[k], Merged(u, v))
    {
    }
  }

  /** One turn of the loop that merges the partial lists. */
  method GatherLevel(part: array<ListNode?>, lev: nat, list: ListNode?, ghost blocks: seq<seq<ListNode>>,
                     ghost acc: seq<ListNode>, ghost all: set<ListNode>) returns (r: ListNode?)
    requires lev < part.Length == |blocks| && Within(Sort(acc), all) && Gathering(part[..], blocks, lev, list, acc, all)
    modifies all
    ensures Within(Sort(blocks[lev] + acc), all)
    ensures Gathering(part[..], blocks, lev + 1, r, blocks[lev] + acc, all)
  {
    GatherNext(part[..], blocks, lev, list, acc, all);
    MergeSorts(blocks[lev], acc);
    hide Sort, Sorts, Merged, PartsOk, Chain, Within, Separate;
    r := list;
    if part[lev] != null {
      r := MergeBeside(part[lev], list, Sort(blocks[lev]), Sort(acc), part[lev + 1..], Sorts(blocks[lev + 1..]), all);
    } else {
      assert blocks[lev] + acc == acc;
      SeparateLast(Sorts(blocks[lev + 1..]), Sort(blocks[lev]), Sort(acc));
    }
  }

  lemma SeparateLast(lists: seq<seq<ListNode>>, c: seq<ListNode>, rest: seq<ListNode>)
    requires Separate(lists, c, rest)
    ensures Separate(lists, rest, [])
  {
  }

  // ---------- Circular lists ----------

  ghost function Before(head: ListNode, s: seq<ListNode>, i: nat): ListNode
    requires i <= |s|
  {
    if i == 0 then head else s[i - 1]
  }

  ghost function Following(head: ListNode, s: seq<ListNode>, i: nat): ListNode {
    if i + 1 < |s| then s[i + 1] else head
  }

  /** The circular doubly linked list of `s` around `head`. */
  ghost predicate Ring(head: ListNode, s: seq<ListNode>)
    reads head, s
  {
    && Distinct(s) && head !in s
    && head.next == (if s == [] then head else s[0]) && head.prev == Before(head, s, |s|)
    && (forall i :: 0 <= i < |s| ==> s[i].next == Following(head, s, i))
    && forall i :: 0 <= i < |s| ==> s[i].prev == Before(head, s, i)
  }

  /** The first `n` nodes point back. */
  ghost predicate Backed(head: ListNode, s: seq<ListNode>, n: nat)
    requires n <= |s|
    reads s
  {
    forall i :: 0 <= i < n ==> s[i].prev == Before(head, s, i)
  }

  /** The same as taking a node, with the link back. */
  method TakeBack(head: ListNode, tail: ListNode, x: ListNode, ghost b: ListNode?,
                  ghost w: seq<ListNode>, ghost u: seq<ListNode>, ghost v: seq<ListNode>)
    requires Merging(head, tail, x, b, w, u, v) && Backed(head, w, |w|)
    modifies tail`next, x`prev
    ensures u != [] && u[0] == x && tail.next == x
    ensures Merging(head, x, x.next, b, w + [x], u[1..], v) && Backed(head, w + [x], |w| + 1)
  {
    FirstOfChain(u, x);
    Take(head, tail, x, b, w, u, v);
    assert tail == Before(head, w, |w|);
    assert x !in w;
    x.prev := tail;
    ghost var s := w + [x];
    forall i | 0 <= i < |s|
      ensures s[i].prev == Before(head, s, i)
    {
      assert i < |w| ==> s[i] == w[i] && Before(head, s, i) == Before(head, w, i);
    }
  }

  /** `merge_and_restore_back_links`. */
  method MergeAndRestore(head: ListNode, a0: ListNode?, b0: ListNode?, ghost u0: seq<ListNode>, ghost v0: seq<ListNode>)
    requires Chain(u0, a0) && Chain(v0, b0) && Apart(u0, v0) && head !in u0 && head !in v0 && a0 != null
    modifies {head} + set x: ListNode | x in u0 || x in v0
    ensures Ring(head, Merged(u0, v0))
  {
    ghost var all := set x: ListNode | x in u0 || x in v0;
    var tail: ListNode := head;
    var a, b := a0, b0;
    ghost var u, v := u0, v0;
    ghost var w: seq<ListNode> := [];
    while a != null && b != null
      invariant Merging(head, tail, a, b, w, u, v) && Backed(head, w, |w|) && (a != null || b != null)
      invariant Within(u, all) && Within(v, all) && Within(w, all) && (tail == head || tail in all)
      invariant w + Merged(u, v) == Merged(u0, v0)
      decreases |u| + |v|
    {
      MergeTurn(w, u, v, Merged(u0, v0));
      Swapped(head, tail, a, b, w, u, v);
      FirstOfChain(u, a);
      FirstOfChain(v, b);
      assert a in all && b in all;
      hide Merging, Chain, Upto, Distinct, Merged, Backed;
      if a.key <= b.key {
        TakeBack(head, tail, a, b, w, u, v);
        w, u := w + [u[0]], u[1..];
        a := a.next;
      } else {
        TakeBack(head, tail, b, a, w, v, u);
        w, v := w + [v[0]], v[1..];
        b := b.next;
        Swapped(head, tail.next, b, a, w, v, u);
      }
      tail := tail.next;
    }
    RestoreRest(head, tail, a, b, w, u, v, all);
  }

  /** One turn of the loop that restores back links: node `i` of the list comes behind `tail`. */
  method LinkBack(head: ListNode, tail: ListNode, x: ListNode, ghost s: seq<ListNode>, ghost i: nat)
    requires i < |s| && tail == Before(head, s, i) && x == s[i] && head !in s
    requires Chain(s, head.next) && Backed(head, s, i)
    modifies x`prev
    ensures Chain(s, head.next) && Backed(head, s, i + 1) && head.next == old(head.next)
  {
    assert forall k :: 0 <= k < i ==> s[k] != x;
    x.prev := tail;
    assert forall k :: 0 <= k < |s| ==> s[k].next == After(s, k);
  }

  /** `head` and the last node are linked to close the ring. */
  method CloseRing(head: ListNode, tail: ListNode, ghost s: seq<ListNode>)
    requires s != [] && tail == s[|s| - 1] && head !in s && Chain(s, head.next) && Backed(head, s, |s|)
    modifies tail`next, head`prev
    ensures Ring(head, s)
  {
    assert forall k :: 0 <= k < |s| - 1 ==> s[k] != tail;
    assert forall k :: 0 <= k < |s| ==> s[k].next == After(s, k);
    tail.next := head;
    head.prev := tail;
  }

  /** What the restoring loop starts from. */
  lemma RestorationStarts(head: ListNode, tail: ListNode, a: ListNode?, b: ListNode?,
                          w: seq<ListNode>, u: seq<ListNode>, v: seq<ListNode>)
    requires Merging(head, tail, a, b, w, u, v) && Backed(head, w, |w|)
    requires (a == null || b == null) && (a != null || b != null)
    ensures var s := w + Merged(u, v);
            && |w| < |s| && head !in s && tail == Before(head, s, |w|) && Backed(head, s, |w|)
            && s[|w|] == (if a != null then a else b)
            && forall x :: x in s ==> x in w || x in u || x in v
  {
    var s := w + Merged(u, v);
    assert Merged(u, v) == (if a != null then u else v);
    assert forall k :: 0 <= k < |w| ==> s[k] == w[k] && Before(head, s, k) == Before(head, w, k);
  }

  /** The end of it: the rest is linked behind the tail, its back links are restored and the ring closed. */
  method RestoreRest(head: ListNode, tail0: ListNode, a: ListNode?, b: ListNode?,
                     ghost w: seq<ListNode>, ghost u: seq<ListNode>, ghost v: seq<ListNode>, ghost all: set<ListNode>)
    requires Merging(head, tail0, a, b, w, u, v) && Backed(head, w, |w|)
    requires (a == null || b == null) && (a != null || b != null)
    requires Within(w, all) && Within(u, all) && Within(v, all)
    modifies {head} + all
    ensures Ring(head, w + Merged(u, v))
  {
    ghost var s := w + Merged(u, v);
    RestorationStarts(head, tail0, a, b, w, u, v);
    EndOf(head, w, tail0);
    assert Within(s, all);
    hide Merging, Merged, Upto, Chain, Backed;
    var r := Finish(head, tail0, a, b, w, u, v);
    var tail := BackLinkRest(head, tail0, s, |w|, all);
    CloseRing(head, tail, s);
  }

  /** The loop that restores the back links of the rest of the list. */
  method BackLinkRest(head: ListNode, tail0: ListNode, ghost s: seq<ListNode>, ghost i0: nat, ghost all: set<ListNode>)
    returns (tail: ListNode)
    requires i0 < |s| && tail0 == Before(head, s, i0) && head !in s && Within(s, all)
    requires Chain(s, head.next) && Backed(head, s, i0)
    modifies all
    ensures tail == s[|s| - 1] && head.next == old(head.next)
    ensures Chain(s, head.next) && Backed(head, s, |s|)
  {
    hide Chain, Backed;
    tail := tail0;
    ghost var i := i0;
    NextOf(head, s, i, tail);
    while true
      invariant i0 <= i < |s| && tail == Before(head, s, i) && tail.next == s[i]
      invariant Chain(s, head.next) && Backed(head, s, i) && head.next == old(head.next)
      decreases |s| - i
    {
      LinkBack(head, tail, tail.next, s, i);
      tail := tail.next;
      i := i + 1;
      NextOf(head, s, i, tail);
      if tail.next == null { break; }
    }
  }

  lemma NextOf(head: ListNode, s: seq<ListNode>, i: nat, tail: ListNode)
    requires Chain(s, head.next) && i <= |s| && tail == Before(head, s, i)
    ensures tail.next == if i < |s| then s[i] else null
  {
    if i > 0 { assert s[i - 1].next == After(s, i - 1); }
  }

  // ---------- The sort ----------

  /** The loop over the partial lists below level `top`. */
  method Gather(part: array<ListNode?>, top: nat, ghost blocks: seq<seq<ListNode>>, ghost all: set<ListNode>)
    returns (list: ListNode?)
    requires top <= part.Length == |blocks| && PartsOk(part[..], Sorts(blocks), all) && Separate(Sorts(blocks), [], [])
    modifies all
    ensures Within(Sort(Held(blocks[..top])), all)
    ensures Gathering(part[..], blocks, top, list, Held(blocks[..top]), all)
  {
    list := null;
    GatherStarts(part[..], blocks, all);
    assert Held(blocks[..0]) == [];
    for lev := 0 to top
      invariant Within(Sort(Held(blocks[..lev])), all)
      invariant Gathering(part[..], blocks, lev, list, Held(blocks[..lev]), all)
    {
      HeldEnd(blocks[..lev], blocks[lev]);
      assert blocks[..lev] + [blocks[lev]] == blocks[..lev + 1];
      hide *;
      list := GatherLevel(part, lev, list, blocks, Held(blocks[..lev]), all);
    }
  }

  /** The last of the partial lists is never empty: it holds the highest bit of the count. */
  lemma LastPart(part: seq<ListNode?>, blocks: seq<seq<ListNode>>, n: nat, top: nat, list: ListNode?,
                 all: set<ListNode>)
    requires Distributed(blocks, n, top) && n > 0 && |part| == |blocks| && Within(Sort(Held(blocks[..top])), all)
    requires Gathering(part, blocks, top, list, Held(blocks[..top]), all)
    ensures part[top] != null && Chain(Sort(blocks[top]), part[top]) && Chain(Sort(Held(blocks[..top])), list)
    ensures Apart(Sort(blocks[top]), Sort(Held(blocks[..top])))
    ensures Within(Sort(blocks[top]), all)
    ensures Merged(Sort(blocks[top]), Sort(Held(blocks[..top]))) == Sort(Held(blocks))
  {
    GatherNext(part, blocks, top, list, Held(blocks[..top]), all);
    HeldTop(blocks, top);
    MergeSorts(blocks[top], Held(blocks[..top]));
    hide Sort, Sorts, Merged, Gathering, PartsOk, Chain, Counter, Held;
  }

  lemma Opened(head: ListNode, s: seq<ListNode>)
    requires Ring(head, s)
    ensures s == [] <==> head.next == head
    ensures s != [] ==> head.prev == s[|s| - 1] && head.next == s[0]
    ensures forall i :: 0 <= i < |s| - 1 ==> s[i].next == s[i + 1]
  {
  }

  /** `list_sort`: the list is sorted in place and is a ring again. */
  method ListSort(head: ListNode, ghost s0: seq<ListNode>)
    requires Ring(head, s0) && |s0| < Pow2(64)
    modifies {head} + set x: ListNode | x in s0
    ensures Ring(head, Sort(s0))
  {
    hide Pow2, Distinct, Separate, Backed;
    Opened(head, s0);
    if head.next == head {
      assert Sort([]) == [];
      return;
    }
    ghost var all := set x: ListNode | x in s0;
    assert Within(s0, all) && head !in all;
    var part := new ListNode?[SLOTS](_ => null);
    var list := OpenRing(head, s0);
    hide *;
    var top; ghost var blocks;
    top, blocks := Distribute(part, list, s0, all);
    assert |part[..]| == SLOTS == |blocks| by { PartsLength(part[..], Sorts(blocks), all); SameLength(blocks); }
    list := Gather(part, top, blocks, all);
    LastPart(part[..], blocks, |s0|, top, list, all);
    NotWithin(head, Sort(blocks[top]), all);
    NotWithin(head, Sort(Held(blocks[..top])), all);
    MergeAndRestore(head, part[top], list, Sort(blocks[top]), Sort(Held(blocks[..top])));
  }

  lemma NotWithin(head: ListNode, s: seq<ListNode>, all: set<ListNode>)
    requires Within(s, all) && head !in all
    ensures head !in s && forall x :: x in s ==> x in all
  {
  }

  /** `head->prev->next = NULL; list = head->next`. */
  method OpenRing(head: ListNode, ghost s: seq<ListNode>) returns (list: ListNode?)
    requires Ring(head, s) && s != []
    modifies head.prev`next
    ensures Chain(s, list)
  {
    Opened(head, s);
    assert forall i :: 0 <= i < |s| - 1 ==> s[i] != head.prev;
    head.prev.next := null;
    assert forall i :: 0 <= i < |s| ==> s[i].next == After(s, i);
    list := head.next;
  }

  lemma SameLength(blocks: seq<seq<ListNode>>)
    ensures |Sorts(blocks)| == |blocks|
  {
  }

  /** `list_sort_forward`: the same for a null-terminated list after a head that is only a link. */
  method ListSortForward(head: ListNode, ghost s0: seq<ListNode>)
    requires Chain(s0, head.next) && head !in s0 && |s0| < Pow2(64)
    modifies {head} + set x: ListNode | x in s0
    ensures Chain(Sort(s0), head.next)
  {
    if head.next == null {
      assert s0 == [] && Sort([]) == [];
      return;
    }
    ghost var all := set x: ListNode | x in s0;
    assert Within(s0, all) && head !in all;
    var list := SortChain(head.next, s0, all);
    head.next := list;
    hide Sort, Chain;
    assert Chain(Sort(s0), head.next);
  }

  /** All of it but the head. */
  method SortChain(list0: ListNode?, ghost s0: seq<ListNode>, ghost all: set<ListNode>) returns (list: ListNode?)
    requires Chain(s0, list0) && s0 != [] && |s0| < Pow2(64) && Within(s0, all)
    modifies all
    ensures Chain(Sort(s0), list) && Within(Sort(s0), all)
  {
    var part := new ListNode?[SLOTS](_ => null);
    hide *;
    var top; ghost var blocks;
    top, blocks := Distribute(part, list0, s0, all);
    assert |part[..]| == SLOTS == |blocks| by { PartsLength(part[..], Sorts(blocks), all); SameLength(blocks); }
    TopInRange(blocks, |s0|, top);
    list := Gather(part, top + 1, blocks, all);
    AllGathered(part[..], blocks, s0, top, list, all);
    SortWithin(s0, all);
  }

  lemma TopInRange(blocks: seq<seq<ListNode>>, n: nat, top: nat)
    requires Distributed(blocks, n, top)
    ensures top < SLOTS == |blocks| && forall k :: top < k < |blocks| ==> blocks[k] == []
  {
  }

  lemma AllGathered(part: seq<ListNode?>, blocks: seq<seq<ListNode>>, s: seq<ListNode>, top: nat, list: ListNode?,
                    all: set<ListNode>)
    requires Distributed(blocks, |s|, top) && Held(blocks) == s && |part| == |blocks|
    requires Within(Sort(Held(blocks[..top + 1])), all)
    requires Gathering(part, blocks, top + 1, list, Held(blocks[..top + 1]), all)
    ensures Chain(Sort(s), list)
  {
    TopInRange(blocks, |s|, top);
    HeldUpto(blocks, top);
    hide *;
    GatheredList(part, blocks, top + 1, list, Held(blocks[..top + 1]), all);
  }

  lemma HeldUpto(blocks: seq<seq<ListNode>>, top: nat)
    requires top < |blocks| && forall k :: top < k < |blocks| ==> blocks[k] == []
    ensures Held(blocks[..top + 1]) == Held(blocks)
  {
    hide Held;
    HeldTop(blocks, top);
    HeldEnd(blocks[..top], blocks[top]);
    assert blocks[..top] + [blocks[top]] == blocks[..top + 1];
  }

  lemma GatheredList(part: seq<ListNode?>, blocks: seq<seq<ListNode>>, lev: nat, list: ListNode?, acc: seq<ListNode>,
                     all: set<ListNode>)
    requires lev <= |part| == |blocks| && Within(Sort(acc), all) && Gathering(part, blocks, lev, list, acc, all)
    ensures Chain(Sort(acc), list)
  {
  }

  lemma SortWithin(s: seq<ListNode>, all: set<ListNode>)
    requires Within(s, all)
    ensures Within(Sort(s), all)
  {
    SortSorts(s);
    forall x | x in Sort(s)
      ensures x in all
    {
      assert x in multiset(Sort(s));
    }
  }
}
