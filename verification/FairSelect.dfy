/** Selecting tasks one at a time from competing users (colossal/src/fsched.hpp `fs_select`, with the
    order of colossal/src/fsched.cpp): a heap of users whose keys change while they sit in it. */
module FairSelect {
  import opened Common
  import opened FairShare
  import Heap

  // ---------- The order on users ----------

  /** `(int)` of a real: truncation toward zero. */
  function Trunc(x: real): (r: int)
    ensures x >= 0.0 ==> r as real <= x < r as real + 1.0
    ensures x < 0.0 ==> r as real - 1.0 < x <= r as real
  {
    if x >= 0.0 then x.Floor else -((-x).Floor)
  }

  function MinInt(x: int, y: int): (r: int)
    ensures r <= x && r <= y && (r == x || r == y)
  {
    if y < x then y else x
  }

  function Needy(c: Context): bool { c.alloc < MinInt(Trunc(c.minshare), c.demand) }

  function CompareReal(x: real, y: real): int {
    (if x > y then 1 else 0) - (if x < y then 1 else 0)
  }

  function CompareInt(x: int, y: int): int {
    (if x > y then 1 else 0) - (if x < y then 1 else 0)
  }

  /** Users have positive weights. */
  type Users = cs: seq<Context> | forall i :: 0 <= i < |cs| ==> cs[i].weight > 0.0 witness []

  function MinshareRatio(c: Context): real { c.alloc as real / Max(c.minshare, 1.0) }

  function WeightRatio(c: Context): real
    requires c.weight > 0.0
  {
    c.alloc as real / c.weight
  }

  /** `fs_context::operator()`. */
  function Compare(a: Context, b: Context): int
    requires a.weight > 0.0 && b.weight > 0.0
  {
    var ret :=
      if Needy(a) && !Needy(b) then -1
      else if !Needy(a) && Needy(b) then 1
      else if Needy(a) && Needy(b) then CompareReal(MinshareRatio(a), MinshareRatio(b))
      else CompareReal(WeightRatio(a), WeightRatio(b));
    if ret == 0 then CompareInt(a.uid, b.uid) else ret
  }

  /** What the comparison comes down to: needy users first, by ratio, then by uid. */
  datatype Key = Key(needy: bool, ratio: real, uid: int)

  function KeyOf(c: Context): Key
    requires c.weight > 0.0
  {
    Key(Needy(c), if Needy(c) then MinshareRatio(c) else WeightRatio(c), c.uid)
  }

  predicate KeyLess(a: Key, b: Key) {
    (a.needy && !b.needy) ||
    (a.needy == b.needy && (a.ratio < b.ratio || (a.ratio == b.ratio && a.uid < b.uid)))
  }

  lemma CompareIsKeyOrder(a: Context, b: Context)
    requires a.weight > 0.0 && b.weight > 0.0
    ensures Compare(a, b) < 0 <==> KeyLess(KeyOf(a), KeyOf(b))
    ensures Compare(a, b) > 0 <==> KeyLess(KeyOf(b), KeyOf(a))
    ensures Compare(a, b) == 0 ==> a.uid == b.uid
  {
  }

  // ---------- What the order means, without naming the ratios ----------

  /** Below its min share, cut down to a whole number, and below its demand. */
  ghost predicate Short(c: Context) { c.alloc < c.demand && c.alloc < Trunc(c.minshare) }

  ghost predicate NoLater(x: real, y: real, a: Context, b: Context) { x < y || (x == y && a.uid <= b.uid) }

  /** `a` has no more for its min share, or for one slot if that is more, than `b`. */
  ghost predicate ByMinshare(a: Context, b: Context) {
    NoLater(a.alloc as real * Max(b.minshare, 1.0), b.alloc as real * Max(a.minshare, 1.0), a, b)
  }

  /** `a` has no more for its weight than `b`. */
  ghost predicate ByWeight(a: Context, b: Context) {
    NoLater(a.alloc as real * b.weight, b.alloc as real * a.weight, a, b)
  }

  /** `a` is served no later than `b`: users short of their min share come first, those by what they have for
      it; the others by what they have for their weight; users equal in this by uid. */
  ghost predicate Precedes(a: Context, b: Context) {
    if Short(a) && Short(b) then ByMinshare(a, b)
    else if !Short(a) && !Short(b) then ByWeight(a, b)
    else Short(a)
  }

  lemma QuotientOrder(x: real, m: real, y: real, n: real)
    requires m > 0.0 && n > 0.0
    ensures x / m < y / n <==> x * n < y * m
    ensures x / m == y / n <==> x * n == y * m
  {
    var p, q := x / m, y / n;
    assert p * m == x && q * n == y;
    assert x * n == p * (m * n) && y * m == q * (m * n);
    assert m * n > 0.0;
    assert (q - p) * (m * n) == y * m - x * n;
  }

  lemma MinshareRatioOrder(a: Context, b: Context)
    ensures ByMinshare(a, b) <==>
            MinshareRatio(a) < MinshareRatio(b) || (MinshareRatio(a) == MinshareRatio(b) && a.uid <= b.uid)
  {
    QuotientOrder(a.alloc as real, Max(a.minshare, 1.0), b.alloc as real, Max(b.minshare, 1.0));
    hide Max;
  }

  lemma WeightRatioOrder(a: Context, b: Context)
    requires a.weight > 0.0 && b.weight > 0.0
    ensures ByWeight(a, b) <==>
            WeightRatio(a) < WeightRatio(b) || (WeightRatio(a) == WeightRatio(b) && a.uid <= b.uid)
  {
    QuotientOrder(a.alloc as real, a.weight, b.alloc as real, b.weight);
  }

  lemma NeedyIsShort(c: Context)
    ensures Needy(c) <==> Short(c)
  {
  }

  lemma CompareByRatio(a: Context, b: Context)
    requires a.weight > 0.0 && b.weight > 0.0
    ensures Needy(a) != Needy(b) ==> (Compare(a, b) <= 0 <==> Needy(a))
    ensures Needy(a) && Needy(b) ==>
              (Compare(a, b) <= 0 <==> MinshareRatio(a) < MinshareRatio(b) ||
                                       (MinshareRatio(a) == MinshareRatio(b) && a.uid <= b.uid))
    ensures !Needy(a) && !Needy(b) ==>
              (Compare(a, b) <= 0 <==> WeightRatio(a) < WeightRatio(b) ||
                                       (WeightRatio(a) == WeightRatio(b) && a.uid <= b.uid))
  {
    hide MinshareRatio, WeightRatio, Needy;
  }

  /** The comparator decides exactly this. */
  lemma CompareIsPrecedence(a: Context, b: Context)
    requires a.weight > 0.0 && b.weight > 0.0
    ensures Compare(a, b) <= 0 <==> Precedes(a, b)
  {
    CompareByRatio(a, b);
    NeedyIsShort(a);
    NeedyIsShort(b);
    MinshareRatioOrder(a, b);
    WeightRatioOrder(a, b);
    hide Compare, Needy, Short, ByMinshare, ByWeight, MinshareRatio, WeightRatio;
  }

  /** The heap order of users numbered by position: `std::greater`, so that the root is a least
      user.  Numbers beyond the users come last. */
  predicate Greater(cs: Users, a: nat, b: nat) {
    if a < |cs| && b < |cs| then Compare(cs[a], cs[b]) > 0 else b < |cs| <= a
  }

  function Order(cs: Users): (nat, nat) -> bool {
    (a: nat, b: nat) => Greater(cs, a, b)
  }

  lemma OrderIsWeak(cs: Users)
    ensures Heap.WeakOrder(Order(cs))
  {
    forall a: nat, b: nat | a < |cs| && b < |cs|
      ensures Greater(cs, a, b) <==> KeyLess(KeyOf(cs[b]), KeyOf(cs[a]))
    {
      CompareIsKeyOrder(cs[a], cs[b]);
    }
    hide Compare, KeyOf;
  }

  // ---------- One selection ----------

  /** Among the users of `pool` that are owed something, `i` precedes all. */
  ghost predicate IsLeast(cs: Users, pool: multiset<nat>, i: nat) {
    && i in pool && i < |cs| && cs[i].alloc != cs[i].demand
    && forall j :: j in pool && j < |cs| && cs[j].alloc != cs[j].demand ==> Precedes(cs[i], cs[j])
  }

  function Served(cs: Users, i: nat): Users
    requires i < |cs|
  {
    cs[i := cs[i].(alloc := cs[i].alloc + 1)]
  }

  /** `i` is a least user of `pool` and has been served. */
  ghost predicate IsPick(cs: Users, cs': seq<Context>, pool: multiset<nat>, i: nat) {
    IsLeast(cs, pool, i) && cs' == Served(cs, i)
  }

  /** Only users that are owed nothing have left. */
  ghost predicate KeepsOwed(cs: seq<Context>, pool: multiset<nat>, pool': multiset<nat>) {
    forall i :: i in pool && i < |cs| && cs[i].alloc != cs[i].demand ==> i in pool'
  }

  ghost predicate SameMembers(s: set<nat>, m: multiset<nat>) {
    forall i :: i in s <==> i in m
  }

  function Listed(entries: seq<nat>): (r: set<nat>)
    ensures SameMembers(r, multiset(entries))
  {
    set i | i in entries
  }

  /** Changing the key of the user at the root leaves the heap in order below the root. */
  lemma RootChangeKeepsRest(cs: Users, cs': Users, s: seq<nat>)
    requires |cs| == |cs'| && s != [] && Distinct(s)
    requires forall j :: 0 <= j < |cs| && j != s[0] ==> cs'[j] == cs[j]
    requires Heap.IsHeap(Order(cs), s)
    ensures Heap.HeapFrom(Order(cs'), s, 1)
  {
    forall i | 1 <= i < |s| && Heap.Parent(i) >= 1
      ensures Heap.Ordered(Order(cs'), s, i)
    {
      assert Heap.Ordered(Order(cs), s, i);
    }
  }

  /** The root of the heap, if it is owed something, is a least user. */
  lemma RootIsLeast(cs: Users, s: seq<nat>)
    requires s != [] && Heap.IsHeap(Order(cs), s) && s[0] < |cs| && cs[s[0]].alloc != cs[s[0]].demand
    ensures IsLeast(cs, multiset(s), s[0])
  {
    OrderIsWeak(cs);
    forall j | j in multiset(s) && j < |cs| && cs[j].alloc != cs[j].demand
      ensures Precedes(cs[s[0]], cs[j])
    {
      var k :| 0 <= k < |s| && s[k] == j;
      Heap.RootIsGreatest(Order(cs), s, k);
      CompareIsPrecedence(cs[s[0]], cs[j]);
    }
  }

  // ---------- The selector ----------

  class Selector {
    const users: array<Context>
    var heap: array<nat>
    var size: nat
    var members: set<nat>

    ghost predicate Valid()
      reads this, users, heap
    {
      && users as object != heap as object
      && (forall i :: 0 <= i < users.Length ==> users[i].weight > 0.0)
      && size <= heap.Length
      && (forall k :: 0 <= k < size ==> heap[k] < users.Length)
      && Distinct(heap[..size])
      && Heap.IsHeap(Order(users[..]), heap[..size])
      && SameMembers(members, multiset(heap[..size]))
    }

    /** The users still competing. */
    ghost function Competing(): multiset<nat>
      reads this, heap
      requires size <= heap.Length
    {
      multiset(heap[..size])
    }

    /** The users between `begin` and `end` compete, whatever the order they are listed in. */
    constructor (users: array<Context>, entries: seq<nat>)
      requires forall i :: 0 <= i < users.Length ==> users[i].weight > 0.0
      requires Distinct(entries) && forall k :: 0 <= k < |entries| ==> entries[k] < users.Length
      ensures Valid() && this.users == users && fresh(heap)
      ensures Competing() == multiset(entries)
    {
      this.users := users;
      heap := new nat[|entries|](i requires 0 <= i < |entries| => entries[i]);
      size := |entries|;
      members := Listed(entries);
      new;
      assert heap[..size] == entries;
      Heapify();
    }

    /** `heap_init`. */
    method Heapify()
      requires users as object != heap && size <= heap.Length && Distinct(heap[..size])
      requires forall i :: 0 <= i < users.Length ==> users[i].weight > 0.0
      requires forall k :: 0 <= k < size ==> heap[..size][k] < users.Length
      requires SameMembers(members, multiset(heap[..size]))
      modifies heap
      ensures Valid() && Competing() == old(Competing())
    {
      hide Heap.HeapFrom, Heap.IsHeap, Heap.WeakOrder, Order, Distinct, SameMembers;
      ghost var s := heap[..size];
      OrderIsWeak(users[..]);
      Heap.Build(Order(users[..]), heap, size);
      SameElements(s, heap[..size]);
    }

    /** The loop of `operator()`: satisfied users at the root leave. */
    method DropSatisfied()
      requires Valid()
      modifies this`size, this`members, heap
      ensures Valid() && size <= old(size)
      ensures Competing() <= old(Competing())
      ensures KeepsOwed(users[..], old(Competing()), Competing())
      ensures size > 0 ==> users[heap[0]].alloc != users[heap[0]].demand
    {
      hide Heap.HeapFrom, Heap.WeakOrder, Order, Distinct;
      while size > 0 && users[heap[0]].demand == users[heap[0]].alloc
        invariant Valid()
        invariant Competing() <= old(Competing())
        invariant KeepsOwed(users[..], old(Competing()), Competing())
        decreases size
      {
        DropRoot();
      }
    }

    /** `heap_pop_to_rear` and `pop_back`. */
    method DropRoot()
      requires Valid() && size > 0
      modifies this`size, this`members, heap
      ensures Valid() && size == old(size) - 1
      ensures Competing() == old(Competing()) - multiset{old(heap[0])}
    {
      hide Heap.HeapFrom, Heap.IsHeap, Heap.WeakOrder, Order, Distinct, SameMembers;
      OrderIsWeak(users[..]);
      ghost var s, before := heap[..size], members;
      members := members - {heap[0]};
      Heap.PopToRear(Order(users[..]), heap, size);
      size := size - 1;
      WithoutLast(s, heap[..size], heap[..size + 1]);
      MembersWithout(before, s, heap[..size]);
    }

    /** Serving the user at the root: its allocation grows and the root sifts down again. */
    method ServeRoot() returns (top: nat)
      requires Valid() && size > 0 && users[heap[0]].alloc != users[heap[0]].demand
      modifies heap, users
      ensures Valid() && Competing() == old(Competing())
      ensures IsPick(old(users[..]), users[..], old(Competing()), top)
    {
      hide Heap.HeapFrom, Heap.WeakOrder, Distinct, Compare;
      top := heap[0];
      ghost var cs: Users := users[..];
      ghost var s := heap[..size];
      RootIsLeast(cs, s);
      users[top] := users[top].(alloc := users[top].alloc + 1);
      assert users[..] == Served(cs, top);
      RootChangeKeepsRest(cs, users[..], s);
      OrderIsWeak(users[..]);
      Heap.Adjust(Order(users[..]), heap, size, 0, heap[0]);
      assert s[0 := s[0]] == s;
      SameElements(s, heap[..size]);
    }

    /** `operator()`: serves a least of the users still owed something, or returns none when nobody is. */
    method Select() returns (r: Option<nat>)
      requires Valid()
      modifies this`size, this`members, heap, users
      ensures Valid() && Competing() <= old(Competing())
      ensures KeepsOwed(old(users[..]), old(Competing()), Competing())
      ensures r == None ==> unchanged(users) && size == 0
      ensures r != None ==> IsPick(old(users[..]), users[..], old(Competing()), r.value)
    {
      DropSatisfied();
      if size == 0 { return None; }
      var top := ServeRoot();
      return Some(top);
    }

    /** The loop that calls `operator()` for `total` free slots (colossal/test/fair_shares.cpp): the picks
        make up a run, and stop when the slots are used up or nobody is owed anything. */
    method Allocate(total: int) returns (picks: seq<nat>)
      requires Valid() && Sound(users[..]) && AllCompete(users[..], Competing())
      modifies this`size, this`members, heap, users
      ensures Valid() && Run(old(users[..]), picks) && users[..] == After(old(users[..]), picks)
      ensures Sound(users[..]) && AllCompete(users[..], Competing())
      ensures |picks| == Least(Positive(total), Owed(old(users[..])))
      ensures total >= |picks| == Owed(old(users[..])) ==> AllMet(users[..])
      ensures NeedyFirst(old(users[..]), picks)
      ensures FromNothing(old(users[..])) ==> Fair(users[..])
    {
      hide LeastOfAll, After, Owed, IsPick, Distinct, SameMembers, Heap.HeapFrom, Order;
      hide AllCompete, AllMet, Sound, NeedyFirst, Fair, FromNothing, KeepsOwed;
      picks := [];
      ghost var cs: Users := users[..];
      NoPicks(cs);
      var alloc := 0;
      while alloc < total
        invariant Valid() && alloc == |picks| <= Positive(total)
        invariant Run(cs, picks) && users[..] == After(cs, picks)
        invariant Sound(users[..]) && AllCompete(users[..], Competing())
        decreases total - alloc
      {
        ghost var now: Users, pool := users[..], Competing();
        var top := Select();
        if top == None {
          NobodyOwed(now, pool, Competing());
          break;
        }
        alloc := alloc + 1;
        ServedStaysSound(now, users[..], pool, Competing(), top.value);
        RunExtends(cs, picks, top.value);
        picks := picks + [top.value];
      }
      AllocationEnds(cs, picks, total);
    }

    /** `add`: a user that is owed something and not competing joins; the vector may be reallocated. */
    method Add(i: nat) returns (added: bool)
      requires Valid() && i < users.Length
      modifies this, heap
      ensures Valid() && (heap == old(heap) || fresh(heap))
      ensures added <==> users[i].alloc != users[i].demand && i !in old(Competing())
      ensures Competing() == if added then old(Competing()) + multiset{i} else old(Competing())
    {
      if users[i].demand == users[i].alloc { return false; }
      if i in members { return false; }
      assert i !in Competing();
      Insert(i);
      return true;
    }

    method Insert(i: nat)
      requires Valid() && i < users.Length && i !in Competing()
      modifies this, heap
      ensures Valid() && (heap == old(heap) || fresh(heap))
      ensures Competing() == old(Competing()) + multiset{i}
    {
      hide Heap.HeapFrom, Heap.WeakOrder, Order, Distinct, SameMembers;
      ghost var s := heap[..size];
      PushBack(i);
      SiftNew(i, s);
    }

    /** `heap_push` of the entry just appended to the heap `s`. */
    method SiftNew(i: nat, ghost s: seq<nat>)
      requires size <= heap.Length && users as object != heap && heap[..size] == s + [i] && i < users.Length
      requires forall k :: 0 <= k < users.Length ==> users[k].weight > 0.0
      requires Heap.IsHeap(Order(users[..]), s) && forall k :: 0 <= k < |s| ==> s[k] < users.Length
      requires Distinct(s) && i !in multiset(s) && SameMembers(members, multiset(s))
      modifies this`members, heap
      ensures Valid() && Competing() == multiset(s) + multiset{i}
    {
      hide Heap.HeapFrom, Heap.HoledHeap, Heap.Dominates, Heap.WeakOrder, Order, Distinct, SameMembers;
      OrderIsWeak(users[..]);
      AppendKeepsHeap(Order(users[..]), s, i);
      Heap.Push(Order(users[..]), heap, size, size - 1, 0, i);
      assert (s + [i])[size - 1 := i] == s + [i];
      NewEntry(s, i, members, heap[..size]);
      members := members + {i};
    }

    /** `push_back`. */
    method PushBack(i: nat)
      requires size <= heap.Length && users as object != heap
      modifies this`heap, this`size, heap
      ensures size == old(size) + 1 <= heap.Length && users as object != heap
      ensures heap[..size] == old(heap[..size]) + [i]
      ensures heap == old(heap) || fresh(heap)
    {
      if size == heap.Length {
        var bigger := new nat[2 * size + 1];
        forall k | 0 <= k < size { bigger[k] := heap[k]; }
        heap := bigger;
      }
      heap[size] := i;
      size := size + 1;
    }
  }

  lemma NewEntry(s: seq<nat>, i: nat, members: set<nat>, t: seq<nat>)
    requires Distinct(s) && i !in multiset(s) && SameMembers(members, multiset(s))
    requires multiset(t) == multiset(s + [i])
    ensures Distinct(t) && multiset(t) == multiset(s) + multiset{i}
    ensures SameMembers(members + {i}, multiset(t))
    ensures forall k :: 0 <= k < |t| ==> t[k] in s || t[k] == i
  {
    assert multiset(s + [i]) == multiset(s) + multiset{i};
    SameElements(s + [i], t);
  }

  lemma AppendKeepsHeap(lt: (nat, nat) -> bool, s: seq<nat>, i: nat)
    requires Heap.IsHeap(lt, s)
    ensures Heap.HoledHeap(lt, s + [i], 0, |s|) && Heap.Dominates(lt, s + [i], |s|, i)
  {
    AllBelowRoot(|s|);
    forall k | 1 <= k < |s|
      ensures Heap.Ordered(lt, s + [i], k)
    {
      assert Heap.Ordered(lt, s, k);
    }
  }

  lemma {:induction false} AllBelowRoot(k: nat)
    ensures Heap.Below(0, k)
    decreases k
  {
    if k > 0 { AllBelowRoot(Heap.Parent(k)); }
  }

  lemma SameElements(s: seq<nat>, t: seq<nat>)
    requires multiset(s) == multiset(t)
    ensures forall k :: 0 <= k < |t| ==> t[k] in s
    ensures Distinct(s) ==> Distinct(t)
  {
    forall k | 0 <= k < |t|
      ensures t[k] in s
    {
      assert t[k] in multiset(t);
    }
    DistinctIsOnce(s);
    DistinctIsOnce(t);
  }

  lemma WithoutLast(s: seq<nat>, t: seq<nat>, u: seq<nat>)
    requires s != [] && |u| == |s| && t == u[..|u| - 1] && u[|u| - 1] == s[0]
    requires multiset(u) == multiset(s)
    ensures multiset(t) == multiset(s) - multiset{s[0]}
    ensures Distinct(s) ==> Distinct(t) && s[0] !in multiset(t)
    ensures forall k :: 0 <= k < |t| ==> t[k] in s
  {
    assert u == t + [s[0]];
    SameElements(s, u);
    assert Distinct(u) ==> s[0] !in t;
    assert forall k :: 0 <= k < |t| ==> t[k] == u[k];
    assert forall x :: multiset(t)[x] <= multiset(s)[x];
  }

  lemma MembersWithout(members: set<nat>, s: seq<nat>, t: seq<nat>)
    requires SameMembers(members, multiset(s)) && s != []
    requires multiset(t) == multiset(s) - multiset{s[0]} && s[0] !in multiset(t)
    ensures SameMembers(members - {s[0]}, multiset(t))
  {
  }

  // ---------- Whole runs of selections ----------

  /** User `i` precedes every user that is owed something. */
  ghost predicate LeastOfAll(cs: Users, i: nat) {
    && i < |cs| && cs[i].alloc != cs[i].demand
    && forall j :: 0 <= j < |cs| && cs[j].alloc != cs[j].demand ==> Precedes(cs[i], cs[j])
  }

  /** While every user that is owed something competes, each pick is least of all. */
  lemma PickIsLeastOfAll(cs: Users, pool: multiset<nat>, i: nat)
    requires IsLeast(cs, pool, i)
    requires forall j :: 0 <= j < |cs| && cs[j].alloc != cs[j].demand ==> j in pool
    ensures LeastOfAll(cs, i)
  {
  }

  /** The users after a sequence of picks. */
  ghost function After(cs: Users, picks: seq<nat>): (r: Users)
    requires forall k :: 0 <= k < |picks| ==> picks[k] < |cs|
    ensures |r| == |cs|
    ensures forall i :: 0 <= i < |cs| ==> r[i] == cs[i].(alloc := r[i].alloc)
  {
    if picks == [] then cs else Served(After(cs, picks[..|picks| - 1]), picks[|picks| - 1])
  }

  /** Each pick is least of all at its time. */
  ghost predicate Run(cs: Users, picks: seq<nat>) {
    && (forall k :: 0 <= k < |picks| ==> picks[k] < |cs|)
    && forall k :: 0 <= k < |picks| ==> PickedLeast(cs, picks, k)
  }

  ghost predicate PickedLeast(cs: Users, picks: seq<nat>, k: nat)
    requires k < |picks| && forall k :: 0 <= k < |picks| ==> picks[k] < |cs|
  {
    LeastOfAll(After(cs, picks[..k]), picks[k])
  }

  lemma RunPrefix(cs: Users, picks: seq<nat>)
    requires Run(cs, picks) && picks != []
    ensures Run(cs, picks[..|picks| - 1])
    ensures LeastOfAll(After(cs, picks[..|picks| - 1]), picks[|picks| - 1])
  {
    hide LeastOfAll, Compare;
    var p := picks[..|picks| - 1];
    forall k | 0 <= k < |p|
      ensures PickedLeast(cs, p, k)
    {
      assert PickedLeast(cs, picks, k);
      assert p[..k] == picks[..k];
    }
    assert PickedLeast(cs, picks, |p|);
  }

  /** Nobody whose min share (or demand) is met is served while somebody's is not. */
  lemma NeedyUsersFirst(cs: Users, i: nat, j: nat)
    requires LeastOfAll(cs, i) && j < |cs| && cs[j].alloc != cs[j].demand && Needy(cs[j])
    ensures Needy(cs[i])
  {
    assert Precedes(cs[i], cs[j]);
  }

  /** What all users together are still owed. */
  ghost function Owed(cs: seq<Context>): int {
    if cs == [] then 0 else Owed(cs[..|cs| - 1]) + (cs[|cs| - 1].demand - cs[|cs| - 1].alloc)
  }

  lemma {:induction false} ServedOwed(cs: Users, i: nat)
    requires i < |cs|
    ensures Owed(Served(cs, i)) == Owed(cs) - 1
  {
    var n := |cs| - 1;
    if i < n {
      ServedOwed(cs[..n], i);
      assert Served(cs, i)[..n] == Served(cs[..n], i);
    } else {
      assert Served(cs, i)[..n] == cs[..n];
    }
  }

  lemma {:induction false} NothingOwed(cs: seq<Context>)
    requires forall i :: 0 <= i < |cs| ==> cs[i].alloc == cs[i].demand
    ensures Owed(cs) == 0
  {
    if cs != [] { NothingOwed(cs[..|cs| - 1]); }
  }

  /** A run ends, with nobody owed anything, after exactly as many picks as were owed at first. */
  lemma {:induction false} PicksUseUpDemand(cs: Users, picks: seq<nat>)
    requires Run(cs, picks)
    ensures |picks| == Owed(cs) - Owed(After(cs, picks))
    ensures (forall i :: 0 <= i < |cs| ==> After(cs, picks)[i].alloc == cs[i].demand) ==> |picks| == Owed(cs)
  {
    if picks != [] {
      RunPrefix(cs, picks);
      PicksUseUpDemand(cs, picks[..|picks| - 1]);
      ServedOwed(After(cs, picks[..|picks| - 1]), picks[|picks| - 1]);
    }
    if forall i :: 0 <= i < |cs| ==> After(cs, picks)[i].alloc == cs[i].demand {
      NothingOwed(After(cs, picks));
    }
  }

  /** Weighted fairness: a served user was, before its last pick, no better off for its weight than any
      user still owed something is now. */
  ghost predicate Fair(cs: Users) {
    forall i, j :: 0 <= i < |cs| && 0 <= j < |cs| && cs[i].alloc > 0 && cs[j].alloc < cs[j].demand ==>
      FairPair(cs[i], cs[j])
  }

  ghost predicate FairPair(a: Context, b: Context) {
    (a.alloc - 1) as real * b.weight <= b.alloc as real * a.weight
  }

  lemma NotShort(c: Context)
    requires c.minshare == 0.0 && 0 <= c.alloc
    ensures !Short(c)
  {
  }

  /** A user without min share is better off for its weight than no user it precedes. */
  lemma PrecedesByWeight(a: Context, b: Context)
    requires a.minshare == 0.0 == b.minshare && 0 <= a.alloc && 0 <= b.alloc && Precedes(a, b)
    ensures a.alloc as real * b.weight <= b.alloc as real * a.weight
  {
    NotShort(a);
    NotShort(b);
  }

  lemma OneMoreWeighs(n: int, w: real)
    requires w > 0.0
    ensures n as real * w <= (n + 1) as real * w
  {
    assert (n + 1) as real == n as real + 1.0;
  }

  lemma PickKeepsFair(cs: Users, p: nat)
    requires LeastOfAll(cs, p) && Fair(cs)
    requires forall i :: 0 <= i < |cs| ==> cs[i].minshare == 0.0 && 0 <= cs[i].alloc <= cs[i].demand
    ensures Fair(Served(cs, p))
  {
    hide Precedes;
    var cs' := Served(cs, p);
    forall i, j | 0 <= i < |cs| && 0 <= j < |cs| && cs'[i].alloc > 0 && cs'[j].alloc < cs'[j].demand
      ensures FairPair(cs'[i], cs'[j])
    {
      if i == p {
        PrecedesByWeight(cs[p], cs[j]);
        if j == p { OneMoreWeighs(cs[p].alloc, cs[p].weight); }
      } else {
        assert FairPair(cs[i], cs[j]);
        if j == p { OneMoreWeighs(cs[p].alloc, cs[i].weight); }
      }
    }
  }

  /** Starting from nothing and without min shares, every run is fair at every moment. */
  lemma {:induction false} RunsAreFair(cs: Users, picks: seq<nat>)
    requires Run(cs, picks)
    requires forall i :: 0 <= i < |cs| ==> cs[i].minshare == 0.0 && cs[i].alloc == 0 && cs[i].demand >= 0
    ensures Fair(After(cs, picks))
    ensures forall i :: 0 <= i < |cs| ==> 0 <= After(cs, picks)[i].alloc <= cs[i].demand
  {
    if picks != [] {
      RunPrefix(cs, picks);
      RunsAreFair(cs, picks[..|picks| - 1]);
      PickKeepsFair(After(cs, picks[..|picks| - 1]), picks[|picks| - 1]);
    }
  }

  // ---------- The whole allocation ----------

  function Positive(n: int): nat { if n < 0 then 0 else n }

  function Least(x: int, y: int): int { if x < y then x else y }

  /** What callers must keep true: nobody has more than it asks for. */
  ghost predicate Sound(cs: seq<Context>) {
    forall i :: 0 <= i < |cs| ==> cs[i].alloc <= cs[i].demand
  }

  ghost predicate AllCompete(cs: seq<Context>, pool: multiset<nat>) {
    forall j :: 0 <= j < |cs| && cs[j].alloc != cs[j].demand ==> j in pool
  }

  ghost predicate AllMet(cs: seq<Context>) {
    forall i :: 0 <= i < |cs| ==> cs[i].alloc == cs[i].demand
  }

  ghost predicate FromNothing(cs: seq<Context>) {
    forall i :: 0 <= i < |cs| ==> cs[i].minshare == 0.0 && cs[i].alloc == 0 && cs[i].demand >= 0
  }

  /** While a user short of its min share is owed something, only such users are picked. */
  ghost predicate NeedyFirst(cs: Users, picks: seq<nat>)
    requires forall k :: 0 <= k < |picks| ==> picks[k] < |cs|
  {
    forall k, j :: 0 <= k < |picks| && 0 <= j < |cs| && OwedAndNeedy(After(cs, picks[..k])[j]) ==>
      Needy(After(cs, picks[..k])[picks[k]])
  }

  predicate OwedAndNeedy(c: Context) { c.alloc != c.demand && Needy(c) }

  lemma NoPicks(cs: Users)
    ensures Run(cs, []) && After(cs, []) == cs
  {
  }

  lemma RunExtends(cs: Users, picks: seq<nat>, i: nat)
    requires Run(cs, picks) && LeastOfAll(After(cs, picks), i)
    ensures Run(cs, picks + [i]) && After(cs, picks + [i]) == Served(After(cs, picks), i)
  {
    hide LeastOfAll;
    var p := picks + [i];
    assert p[..|picks|] == picks;
    assert i < |cs| by { LeastIsUser(After(cs, picks), i); }
    forall k | 0 <= k < |p|
      ensures PickedLeast(cs, p, k)
    {
      if k < |picks| {
        assert PickedLeast(cs, picks, k);
        assert p[..k] == picks[..k];
      }
    }
  }

  lemma LeastIsUser(cs: Users, i: nat)
    requires LeastOfAll(cs, i)
    ensures i < |cs|
  {
  }

  /** Serving a least user that is owed something keeps everybody sound and everybody owed competing. */
  lemma ServedStaysSound(cs: Users, cs': seq<Context>, pool: multiset<nat>, pool': multiset<nat>, i: nat)
    requires Sound(cs) && AllCompete(cs, pool) && KeepsOwed(cs, pool, pool') && IsPick(cs, cs', pool, i)
    ensures Sound(cs') && AllCompete(cs', pool') && LeastOfAll(cs, i) && cs' == Served(cs, i)
  {
    PickIsLeastOfAll(cs, pool, i);
  }

  /** The selector returns none only when nobody is owed anything. */
  lemma NobodyOwed(cs: Users, pool: multiset<nat>, pool': multiset<nat>)
    requires AllCompete(cs, pool) && KeepsOwed(cs, pool, pool') && pool' == multiset{}
    ensures AllMet(cs) && AllCompete(cs, pool')
  {
  }

  lemma {:induction false} OwedIsPositive(cs: seq<Context>)
    requires Sound(cs)
    ensures Owed(cs) >= 0 && (Owed(cs) == 0 <==> AllMet(cs))
  {
    if cs != [] {
      var front := cs[..|cs| - 1];
      OwedIsPositive(front);
      assert AllMet(cs) ==> AllMet(front);
    }
  }

  /** Selections stop with the slots used up or with everybody satisfied, whichever comes first, and
      meet min shares before anything else; without min shares they are fair. */
  lemma AllocationEnds(cs: Users, picks: seq<nat>, total: int)
    requires Run(cs, picks) && Sound(After(cs, picks)) && |picks| <= Positive(total)
    requires |picks| == Positive(total) || AllMet(After(cs, picks))
    ensures |picks| == Least(Positive(total), Owed(cs))
    ensures total >= |picks| == Owed(cs) ==> AllMet(After(cs, picks))
    ensures NeedyFirst(cs, picks)
    ensures FromNothing(cs) ==> Fair(After(cs, picks))
  {
    PicksUseUpDemand(cs, picks);
    OwedIsPositive(After(cs, picks));
    forall k, j | 0 <= k < |picks| && 0 <= j < |cs| && OwedAndNeedy(After(cs, picks[..k])[j])
      ensures Needy(After(cs, picks[..k])[picks[k]])
    {
      assert PickedLeast(cs, picks, k);
      NeedyUsersFirst(After(cs, picks[..k]), picks[k], j);
    }
    if FromNothing(cs) { RunsAreFair(cs, picks); }
  }

  // ---------- Changing a demand while the user competes ----------

  /** A change of demand keeps a user's key exactly when it is owed something both before and after, or
      neither before nor after, or has its min share. */
  lemma KeyIsKeptExactlyWhen(c: Context, demand: int)
    requires c.weight > 0.0 && c.alloc <= c.demand && c.alloc <= demand
    ensures KeyOf(c.(demand := demand)) == KeyOf(c) <==>
            (c.alloc < c.demand <==> c.alloc < demand) || Trunc(c.minshare) <= c.alloc
  {
  }

  function WithDemand(cs: Users, i: nat, demand: int): Users
    requires i < |cs|
  {
    cs[i := cs[i].(demand := demand)]
  }

  /** Whatever heap the user sits in, the heap stays in order when the user's demand becomes `demand`. */
  ghost predicate ChangeIsSafe(c: Context, demand: int) {
    forall cs: Users, s: seq<nat>, i: nat :: i < |cs| && cs[i] == c && Heap.IsHeap(Order(cs), s) ==>
      Heap.IsHeap(Order(WithDemand(cs, i, demand)), s)
  }

  lemma SameKeysSameHeap(cs: Users, cs': Users, s: seq<nat>)
    requires |cs| == |cs'| && forall k :: 0 <= k < |cs| ==> KeyOf(cs[k]) == KeyOf(cs'[k])
    requires Heap.IsHeap(Order(cs), s)
    ensures Heap.IsHeap(Order(cs'), s)
  {
    forall i | 1 <= i < |s|
      ensures Heap.Ordered(Order(cs'), s, i)
    {
      assert Heap.Ordered(Order(cs), s, i);
      var a, b := s[Heap.Parent(i)], s[i];
      if a < |cs| && b < |cs| {
        CompareIsKeyOrder(cs[a], cs[b]);
        CompareIsKeyOrder(cs'[a], cs'[b]);
      }
    }
  }

  /** A user owed something and needy, that follows `c` exactly while `c` is needy too. */
  function Rival(c: Context): Context {
    var n := if c.alloc < 0 then 0 else c.alloc + 1;
    Context(1.0, (n + 1) as real, n + 1, 0.0, n, c.uid + 1)
  }

  lemma FractionBelow(x: real, y: real, n: real)
    requires n >= 1.0 && x * n <= n - 1.0 && y * (n + 1.0) == n
    ensures x < y
  {
    assert (1.0 - y) * (n + 1.0) == 1.0;
    assert y < 1.0;
    assert (y - x) * n == n - y - x * n;
  }

  lemma RivalRatio(c: Context)
    requires Trunc(c.minshare) > c.alloc
    ensures MinshareRatio(c) < MinshareRatio(Rival(c))
  {
    var n := Rival(c).alloc as real;
    var m, a := Max(c.minshare, 1.0), c.alloc as real;
    var x, y := MinshareRatio(c), MinshareRatio(Rival(c));
    assert y * (n + 1.0) == n && x * m == a;
    if c.alloc < 0 {
      assert x < 0.0;
    } else {
      assert m >= n >= 1.0 && a == n - 1.0;
      assert x >= 0.0;
      assert x * n <= x * m == n - 1.0;
      FractionBelow(x, y, n);
    }
  }

  /** Such a user is passed over: it sits below its rival, which is served although it no longer is a
      least user. */
  lemma RaisedUserIsPassedOver(c: Context, demand: int)
    requires c.weight > 0.0 && c.alloc == c.demand < demand && Trunc(c.minshare) > c.alloc
    ensures var before: Users := [Rival(c), c];
            && Heap.IsHeap(Order(before), [0, 1])
            && IsLeast(before, multiset{0, 1}, 0)
            && !Heap.IsHeap(Order(WithDemand(before, 1, demand)), [0, 1])
            && !IsLeast(WithDemand(before, 1, demand), multiset{0, 1}, 0)
  {
    var before: Users := [Rival(c), c];
    var after := WithDemand(before, 1, demand);
    RivalRatio(c);
    assert Needy(before[0]) && !Needy(before[1]) && Needy(after[1]);
    assert Compare(before[0], before[1]) < 0 && Compare(before[0], before[0]) == 0;
    assert Compare(after[0], after[1]) > 0 by { CompareIsKeyOrder(after[0], after[1]); }
    hide Precedes, Compare, Needy, MinshareRatio, Rival;
    CompareIsPrecedence(before[0], before[0]);
    CompareIsPrecedence(before[0], before[1]);
    CompareIsPrecedence(after[0], after[1]);
    assert Heap.Ordered(Order(before), [0, 1], 1);
    assert !Heap.Ordered(Order(after), [0, 1], 1);
    assert 1 in multiset{0, 1};
  }

  /** A needy user whose demand drops to what it has stays above its rival, which then precedes it. */
  lemma LoweredUserIsInTheWay(c: Context)
    requires c.weight > 0.0 && c.alloc < c.demand && Trunc(c.minshare) > c.alloc
    ensures var before: Users := [c, Rival(c)];
            && Heap.IsHeap(Order(before), [0, 1])
            && !Heap.IsHeap(Order(WithDemand(before, 0, c.alloc)), [0, 1])
  {
    var before: Users := [c, Rival(c)];
    var after := WithDemand(before, 0, c.alloc);
    RivalRatio(c);
    assert Compare(before[0], before[1]) < 0 && Compare(after[0], after[1]) > 0;
    assert Heap.Ordered(Order(before), [0, 1], 1);
    assert !Heap.Ordered(Order(after), [0, 1], 1);
  }

  /** For all that, the next selection after a demand has been lowered still is least: the user served, if
      the root is owed something, precedes every other that is. */
  lemma LoweringKeepsNextPick(cs: Users, s: seq<nat>, i: nat, demand: int)
    requires i < |cs| && s != [] && s[0] < |cs| && Heap.IsHeap(Order(cs), s)
    requires cs[i].alloc <= demand <= cs[i].demand
    requires var c := WithDemand(cs, i, demand)[s[0]]; c.alloc != c.demand
    ensures IsLeast(WithDemand(cs, i, demand), multiset(s), s[0])
  {
    var cs' := WithDemand(cs, i, demand);
    RootIsLeast(cs, s);
    KeyIsKeptExactlyWhen(cs[i], demand);
    hide KeyOf, Compare, Precedes;
    forall j | j in multiset(s) && j < |cs'| && cs'[j].alloc != cs'[j].demand
      ensures Precedes(cs'[s[0]], cs'[j])
    {
      CompareIsPrecedence(cs[s[0]], cs[j]);
      CompareIsPrecedence(cs'[s[0]], cs'[j]);
      CompareIsKeyOrder(cs[s[0]], cs[j]);
      CompareIsKeyOrder(cs'[s[0]], cs'[j]);
    }
  }

  /** Changing a demand keeps every heap in order exactly when it keeps the user's key. */
  lemma ChangeIsSafeExactlyWhen(c: Context, demand: int)
    requires c.weight > 0.0 && c.alloc <= c.demand && c.alloc <= demand
    ensures ChangeIsSafe(c, demand) <==>
            (c.alloc < c.demand <==> c.alloc < demand) || Trunc(c.minshare) <= c.alloc
  {
    var before: Users, other: Users := [Rival(c), c], [c, Rival(c)];
    KeyIsKeptExactlyWhen(c, demand);
    if (c.alloc < c.demand <==> c.alloc < demand) || Trunc(c.minshare) <= c.alloc {
      forall cs: Users, s: seq<nat>, i: nat | i < |cs| && cs[i] == c && Heap.IsHeap(Order(cs), s)
        ensures Heap.IsHeap(Order(WithDemand(cs, i, demand)), s)
      {
        SameKeysSameHeap(cs, WithDemand(cs, i, demand), s);
      }
    } else if c.alloc < demand {
      RaisedUserIsPassedOver(c, demand);
      assert before[1] == c;
    } else {
      LoweredUserIsInTheWay(c);
      assert other[0] == c;
    }
  }
}
