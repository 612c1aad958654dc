/** AVL trees (ulib/opt/tree/tree.c). */
module Avl {
  import opened Common
  import opened TreeLinks

  // ---------- Balance ----------

  ghost function Height(t: Tree): nat {
    if t == Leaf then 0 else 1 + Higher(Height(t.left), Height(t.right))
  }

  function Higher(a: nat, b: nat): nat { if a < b then b else a }

  /** A node's balance is the height of its right subtree minus that of its left one. */
  ghost predicate Weighed(left: nat, b: Bits3, right: nat) { b as int == right - left && -1 <= b <= 1 }

  ghost predicate Balanced(t: Tree) {
    t != Leaf ==> Weighed(Height(t.left), t.balance, Height(t.right)) && Balanced(t.left) && Balanced(t.right)
  }

  /** A balanced tree is shallow: the number of its nodes grows exponentially with half its height. */
  lemma {:induction false} BalancedIsShallow(t: Tree)
    requires Balanced(t)
    ensures Pow2(Height(t) / 2) <= |Nodes(t)| + 1
  {
    if t != Leaf {
      var h := Height(t);
      BalancedIsShallow(t.left);
      BalancedIsShallow(t.right);
      assert h >= 2 ==> Height(t.left) >= h - 2 && Height(t.right) >= h - 2;
      if h >= 2 {
        Pow2Grows(h / 2 - 1, Height(t.left) / 2);
        Pow2Grows(h / 2 - 1, Height(t.right) / 2);
      }
    }
  }

  /** A path that is balanced once a tree of height `h` fills its hole. */
  ghost predicate BalancedPath(p: Path, h: nat) {
    match p
    case Top => true
    case Left(_, b, r, up) => Weighed(h, b, Height(r)) && Balanced(r) && BalancedPath(up, 1 + Higher(h, Height(r)))
    case Right(l, _, b, up) => Weighed(Height(l), b, h) && Balanced(l) && BalancedPath(up, 1 + Higher(Height(l), h))
  }

  lemma {:induction false} PlugBalanced(p: Path, t: Tree)
    ensures Balanced(Plug(p, t)) <==> Balanced(t) && BalancedPath(p, Height(t))
  {
    match p
    case Top =>
    case Left(n, b, r, up) =>
      PlugBalanced(up, Fork(t, n, b, r));
      assert Balanced(Fork(t, n, b, r)) <==> Weighed(Height(t), b, Height(r)) && Balanced(t) && Balanced(r);
      assert Height(Fork(t, n, b, r)) == 1 + Higher(Height(t), Height(r));
      hide Height, Balanced, Weighed;
    case Right(l, n, b, up) =>
      PlugBalanced(up, Fork(l, n, b, t));
      assert Balanced(Fork(l, n, b, t)) <==> Weighed(Height(l), b, Height(t)) && Balanced(l) && Balanced(t);
      assert Height(Fork(l, n, b, t)) == 1 + Higher(Height(l), Height(t));
      hide Height, Balanced, Weighed;
  }

  // ---------- Rotations ----------

  /** A rotation keeps the nodes in order. */
  lemma LeftRotatedNodes(p: Path, t: Tree)
    requires t.Fork? && t.right.Fork?
    ensures Nodes(Plug(p, LeftRotated(t))) == Nodes(Plug(p, t)) && Set(Plug(p, LeftRotated(t))) == Set(Plug(p, t))
    ensures RootOf(Plug(p, LeftRotated(t))) == if p == Top then t.right.node else RootOf(Plug(p, t))
  {
    RotatedNodes(t);
    PlugNodes(p, t);
    PlugNodes(p, LeftRotated(t));
    PlugRoot(p, t, LeftRotated(t));
    hide Nodes, Set, Plug, Before, After, PathSet;
  }

  lemma RotatedNodes(t: Tree)
    requires t.Fork? && t.right.Fork?
    ensures Nodes(LeftRotated(t)) == Nodes(t) && Set(LeftRotated(t)) == Set(t)
  {
    var a, b, d := t.left, t.right.left, t.right.right;
    ForkNodes(t);
    ForkNodes(t.right);
    ForkNodes(LeftRotated(t));
    ForkNodes(LeftRotated(t).left);
    assert LeftRotated(t).left.left == a && LeftRotated(t).left.right == b && LeftRotated(t).right == d;
    Shift(Nodes(a), t.node, Nodes(b), t.right.node, Nodes(d));
    hide *;
  }

  /** The nodes a left rotation touches. */
  lemma LeftRotationNodes(p: Path, t: Tree, f: map<Node, Cell>)
    requires Linked(Plug(p, t), null, f) && t.Fork? && t.right.Fork?
    ensures var m, x, y, z, q := Set(Plug(p, t)), t.node, t.right.node, RootOf(t.right.left), ParentOf(p);
            && x in m && y in m && x in f && y in f
            && (z != null ==> z in m && z in f && z != q) && (q != null ==> q in m && q in f)
            && x != y && x != z && y != z && x != q && y != q
            && f[x].right == y && f[x].parent == q && f[y].left == z
            && (q != null ==> (f[q].right == x <==> p.Right?))
  {
    Split(p, t, f);
    PlugNodes(p, t);
    PathNodes(p, t.node, f);
    RootIn(t.right.left, t.right.node, f);
  }

  /** What a left rotation of `x` and `y` below `q` changes; `z` goes from `y` to `x`. */
  ghost predicate RotatedLeft(m: set<Node>, x: Node, y: Node, z: Node?, q: Node?, left: bool,
                              f: map<Node, Cell>, g: map<Node, Cell>) {
    forall n :: n in m ==> (n in f && n in g && g[n] ==
      if n == x then f[n].(right := z, parent := y)
      else if n == y then f[n].(left := x, parent := q)
      else if n == z then f[n].(parent := x)
      else if n == q then (if left then f[n].(left := y) else f[n].(right := y))
      else f[n])
  }

  lemma RotatedFlat(m: set<Node>, x: Node, y: Node, z: Node?, q: Node?, left: bool, f: map<Node, Cell>,
                    g: map<Node, Cell>)
    requires f.Keys == m && g.Keys == m
    requires x in m ==> g[x] == f[x].(right := z, parent := y)
    requires y in m ==> g[y] == f[y].(left := x, parent := q)
    requires z != null && z in m ==> g[z] == f[z].(parent := x)
    requires q != null && q in m ==> g[q] == if left then f[q].(left := y) else f[q].(right := y)
    requires forall n :: n in m && n != x && n != y && n != z && n != q ==> g[n] == f[n]
    ensures RotatedLeft(m, x, y, z, q, left, f, g)
  {
  }

  /** The parts of the tree a left rotation rearranges do not share nodes. */
  ghost predicate LeftApart(p: Path, t: Tree)
    requires t.Fork? && t.right.Fork?
  {
    var x, y, z, q := t.node, t.right.node, RootOf(t.right.left), ParentOf(p);
    var a, b, d, u := Set(t.left), Set(t.right.left), Set(t.right.right), PathSet(p);
    && Set(Plug(p, t)) == a + b + d + u + {x, y} && a !! b && a !! d && b !! d && u !! a && u !! b && u !! d
    && x !in a && x !in b && x !in d && x !in u && y !in a && y !in b && y !in d && y !in u && x != y
    && (z != null ==> z in b) && (q != null ==> q in u)
  }

  lemma LeftRotationParts(p: Path, t: Tree, f: map<Node, Cell>)
    requires LinkedPath(p, RootOf(t), f) && Linked(t, ParentOf(p), f) && Set(t) !! PathSet(p)
    requires t.Fork? && t.right.Fork?
    ensures LeftApart(p, t)
  {
    RootIn(t.right.left, t.right.node, f);
    PathNodes(p, t.node, f);
    PlugNodes(p, t);
    hide LinkedPath, Plug;
    assert Set(t) == Set(t.left) + {t.node} + (Set(t.right.left) + {t.right.node} + Set(t.right.right));
  }

  lemma LeftRotationMoves(p: Path, t: Tree, f: map<Node, Cell>, g: map<Node, Cell>)
    requires t.Fork? && t.right.Fork? && LeftApart(p, t)
    requires RotatedLeft(Set(Plug(p, t)), t.node, t.right.node, RootOf(t.right.left), ParentOf(p), p.Left?, f, g)
    ensures Moved(t.left, t.node, t.node, f, g) && Moved(t.right.left, t.right.node, t.node, f, g)
    ensures Moved(t.right.right, t.right.node, t.right.node, f, g) && Refilled(p, t.right.node, f, g)
  {
    hide Plug, Set, PathSet;
  }

  lemma LeftRotationJoins(p: Path, t: Tree, g: map<Node, Cell>)
    requires t.Fork? && t.right.Fork? && LeftApart(p, t)
    requires t.node in g && t.right.node in g
    requires g[t.node] == Cell(RootOf(t.left), RootOf(t.right.left), t.right.node, t.balance)
    requires g[t.right.node] == Cell(t.node, RootOf(t.right.right), ParentOf(p), t.right.balance)
    requires Linked(t.left, t.node, g) && Linked(t.right.left, t.node, g) && Linked(t.right.right, t.right.node, g)
    requires LinkedPath(p, t.right.node, g)
    ensures Linked(Plug(p, LeftRotated(t)), null, g)
  {
    Split(p, LeftRotated(t), g);
    hide LinkedPath, Plug, PathSet;
    assert Linked(LeftRotated(t).left, t.right.node, g);
  }

  lemma LeftRotation(p: Path, t: Tree, f: map<Node, Cell>, g: map<Node, Cell>)
    requires Linked(Plug(p, t), null, f) && t.Fork? && t.right.Fork?
    requires RotatedLeft(Set(Plug(p, t)), t.node, t.right.node, RootOf(t.right.left), ParentOf(p), p.Left?, f, g)
    ensures Linked(Plug(p, LeftRotated(t)), null, g)
  {
    var x, y := t.node, t.right.node;
    Split(p, t, f);
    LeftRotationNodes(p, t, f);
    LeftRotationParts(p, t, f);
    LeftRotationMoves(p, t, f, g);
    assert g[x] == f[x].(right := RootOf(t.right.left), parent := y);
    assert g[y] == f[y].(left := x, parent := ParentOf(p));
    hide RotatedLeft, LeftApart, Moved, Refilled, LinkedPath, Plug;
    Refill(p, x, y, f, g);
    Move(t.left, x, x, f, g);
    Move(t.right.left, y, x, f, g);
    Move(t.right.right, y, y, f, g);
    LeftRotationJoins(p, t, g);
  }

  /** What a right rotation of `x` and `y` below `q` changes; `z` goes from `y` to `x`. */
  ghost predicate RotatedRight(m: set<Node>, x: Node, y: Node, z: Node?, q: Node?, left: bool,
                               f: map<Node, Cell>, g: map<Node, Cell>) {
    forall n :: n in m ==> (n in f && n in g && g[n] ==
      if n == x then f[n].(left := z, parent := y)
      else if n == y then f[n].(right := x, parent := q)
      else if n == z then f[n].(parent := x)
      else if n == q then (if left then f[n].(left := y) else f[n].(right := y))
      else f[n])
  }

  lemma RotatedRightFlat(m: set<Node>, x: Node, y: Node, z: Node?, q: Node?, left: bool, f: map<Node, Cell>,
                         g: map<Node, Cell>)
    requires f.Keys == m && g.Keys == m
    requires x in m ==> g[x] == f[x].(left := z, parent := y)
    requires y in m ==> g[y] == f[y].(right := x, parent := q)
    requires z != null && z in m ==> g[z] == f[z].(parent := x)
    requires q != null && q in m ==> g[q] == if left then f[q].(left := y) else f[q].(right := y)
    requires forall n :: n in m && n != x && n != y && n != z && n != q ==> g[n] == f[n]
    ensures RotatedRight(m, x, y, z, q, left, f, g)
  {
  }

  /** The nodes a right rotation touches. */
  lemma RightRotationNodes(p: Path, t: Tree, f: map<Node, Cell>)
    requires Linked(Plug(p, t), null, f) && t.Fork? && t.left.Fork?
    ensures var m, x, y, z, q := Set(Plug(p, t)), t.node, t.left.node, RootOf(t.left.right), ParentOf(p);
            && x in m && y in m && x in f && y in f
            && (z != null ==> z in m && z in f && z != q) && (q != null ==> q in m && q in f)
            && x != y && x != z && y != z && x != q && y != q
            && f[x].left == y && f[x].parent == q && f[y].right == z
            && (q != null ==> (f[q].right == x <==> p.Right?))
  {
    Split(p, t, f);
    PlugNodes(p, t);
    PathNodes(p, t.node, f);
    RootIn(t.left.right, t.left.node, f);
  }

  lemma RightRotatedNodes(p: Path, t: Tree)
    requires t.Fork? && t.left.Fork?
    ensures Nodes(Plug(p, RightRotated(t))) == Nodes(Plug(p, t)) && Set(Plug(p, RightRotated(t))) == Set(Plug(p, t))
    ensures RootOf(Plug(p, RightRotated(t))) == if p == Top then t.left.node else RootOf(Plug(p, t))
  {
    assert LeftRotated(RightRotated(t)) == t;
    LeftRotatedNodes(p, RightRotated(t));
    hide Nodes, Set, LeftRotated;
    assert p == Top ==> Plug(p, RightRotated(t)) == RightRotated(t);
  }

  lemma RightRotationParts(p: Path, t: Tree, f: map<Node, Cell>)
    requires LinkedPath(p, RootOf(t), f) && Linked(t, ParentOf(p), f) && Set(t) !! PathSet(p)
    requires t.Fork? && t.left.Fork?
    ensures LeftApart(p, RightRotated(t))
    ensures Set(Plug(p, RightRotated(t))) == Set(Plug(p, t))
  {
    LeftRotatedNodes(p, RightRotated(t));
    RootIn(t.left.right, t.left.node, f);
    PathNodes(p, t.node, f);
    PlugNodes(p, RightRotated(t));
    hide LinkedPath, Plug;
  }

  lemma RightRotationMoves(p: Path, t: Tree, f: map<Node, Cell>, g: map<Node, Cell>)
    requires t.Fork? && t.left.Fork? && LeftApart(p, RightRotated(t))
    requires Set(Plug(p, RightRotated(t))) == Set(Plug(p, t))
    requires RotatedRight(Set(Plug(p, t)), t.node, t.left.node, RootOf(t.left.right), ParentOf(p), p.Left?, f, g)
    ensures Moved(t.left.left, t.left.node, t.left.node, f, g) && Moved(t.left.right, t.left.node, t.node, f, g)
    ensures Moved(t.right, t.node, t.node, f, g) && Refilled(p, t.left.node, f, g)
  {
    hide Plug, Set, PathSet;
  }

  lemma RightRotationJoins(p: Path, t: Tree, g: map<Node, Cell>)
    requires t.Fork? && t.left.Fork? && LeftApart(p, RightRotated(t))
    requires t.node in g && t.left.node in g
    requires g[t.node] == Cell(RootOf(t.left.right), RootOf(t.right), t.left.node, t.balance)
    requires g[t.left.node] == Cell(RootOf(t.left.left), t.node, ParentOf(p), t.left.balance)
    requires Linked(t.left.left, t.left.node, g) && Linked(t.left.right, t.node, g) && Linked(t.right, t.node, g)
    requires LinkedPath(p, t.left.node, g)
    ensures Linked(Plug(p, RightRotated(t)), null, g)
  {
    Split(p, RightRotated(t), g);
    hide LinkedPath, Plug, PathSet;
    assert Linked(RightRotated(t).right, t.left.node, g);
  }

  lemma RightRotation(p: Path, t: Tree, f: map<Node, Cell>, g: map<Node, Cell>)
    requires Linked(Plug(p, t), null, f) && t.Fork? && t.left.Fork?
    requires RotatedRight(Set(Plug(p, t)), t.node, t.left.node, RootOf(t.left.right), ParentOf(p), p.Left?, f, g)
    ensures Linked(Plug(p, RightRotated(t)), null, g)
  {
    var x, y := t.node, t.left.node;
    Split(p, t, f);
    RightRotationNodes(p, t, f);
    RightRotationParts(p, t, f);
    RightRotationMoves(p, t, f, g);
    assert g[x] == f[x].(left := RootOf(t.left.right), parent := y);
    assert g[y] == f[y].(right := x, parent := ParentOf(p));
    hide RotatedRight, LeftApart, Moved, Refilled, LinkedPath, Plug;
    Refill(p, x, y, f, g);
    Move(t.right, x, x, f, g);
    Move(t.left.right, y, x, f, g);
    Move(t.left.left, y, y, f, g);
    RightRotationJoins(p, t, g);
  }

  // ---------- Unlinking ----------

  ghost function OnlyChild(t: Tree): Tree
    requires t.Fork? && (t.left == Leaf || t.right == Leaf)
  {
    if t.right == Leaf then t.left else t.right
  }

  lemma SpliceFacts(p: Path, t: Tree, f: map<Node, Cell>)
    requires Linked(Plug(p, t), null, f) && t.Fork? && (t.left == Leaf || t.right == Leaf)
    ensures var c, s, z, q := OnlyChild(t), Set(Plug(p, OnlyChild(t))), RootOf(OnlyChild(t)), ParentOf(p);
            && s == Set(Plug(p, t)) - {t.node} && (z != null ==> z in s && z != q) && (q != null ==> q in s)
            && RootOf(Plug(p, c)) == (if p == Top then z else RootOf(Plug(p, t)))
            && Set(Plug(p, c)) == Set(c) + PathSet(p) && Set(c) !! PathSet(p)
  {
    var c := OnlyChild(t);
    Split(p, t, f);
    PlugNodes(p, t);
    PlugNodes(p, c);
    PlugRoot(p, t, c);
    PathNodes(p, t.node, f);
    RootIn(c, t.node, f);
    hide LinkedPath, Plug, PathSet;
    assert Set(t) == Set(c) + {t.node} && t.node !in Set(c);
  }

  /** What taking a node with at most one child `z` out from below `q` changes. */
  ghost predicate SplicedOut(m: set<Node>, z: Node?, q: Node?, left: bool, f: map<Node, Cell>, g: map<Node, Cell>) {
    forall n :: n in m ==> (n in f && n in g && g[n] ==
      if n == z then f[n].(parent := q)
      else if n == q then (if left then f[n].(left := z) else f[n].(right := z))
      else f[n])
  }

  /** A node with at most one child has been replaced by that child. */
  lemma Spliced(p: Path, t: Tree, f: map<Node, Cell>, g: map<Node, Cell>)
    requires Linked(Plug(p, t), null, f) && t.Fork? && (t.left == Leaf || t.right == Leaf)
    requires SplicedOut(Set(Plug(p, OnlyChild(t))), RootOf(OnlyChild(t)), ParentOf(p), p.Left?, f, g)
    ensures Linked(Plug(p, OnlyChild(t)), null, g)
  {
    var c := OnlyChild(t);
    SpliceFacts(p, t, f);
    Split(p, t, f);
    Split(p, c, g);
    hide LinkedPath, Plug, Set, PathSet;
    assert Linked(c, t.node, f);
    Move(c, t.node, ParentOf(p), f, g);
    Refill(p, t.node, RootOf(c), f, g);
  }

  /** A fork made of two subtrees and a node in the place of another. */
  lemma Rebuilt(p: Path, l: Tree, n: Node, b: Bits3, r: Tree, x: Node?, lp: Node?, rp: Node?,
                f: map<Node, Cell>, g: map<Node, Cell>)
    requires LinkedPath(p, x, f) && Linked(l, lp, f) && Linked(r, rp, f)
    requires Set(l) !! Set(r) && Set(l) !! PathSet(p) && Set(r) !! PathSet(p)
    requires n !in Set(l) && n !in Set(r) && n !in PathSet(p)
    requires Moved(l, lp, n, f, g) && Moved(r, rp, n, f, g) && Refilled(p, n, f, g)
    requires n in g && g[n] == Cell(RootOf(l), RootOf(r), ParentOf(p), b)
    ensures Linked(Plug(p, Fork(l, n, b, r)), null, g)
  {
    Split(p, Fork(l, n, b, r), g);
    ForkNodes(Fork(l, n, b, r));
    assert Linked(l, n, g) && Linked(r, n, g) ==> Linked(Fork(l, n, b, r), ParentOf(p), g);
    hide *;
    Move(l, lp, n, f, g);
    Move(r, rp, n, f, g);
    Refill(p, x, n, f, g);
  }

  /** The parts around `entry` stay where they are; `n` takes its place. */
  ghost predicate Replaced(m: set<Node>, n: Node, y: Node?, z: Node?, q: Node?, left: bool,
                           f: map<Node, Cell>, g: map<Node, Cell>) {
    forall k :: k in m ==> (k in f && k in g && g[k] ==
      if k == y || k == z then f[k].(parent := n)
      else if k == q then (if left then f[k].(left := n) else f[k].(right := n))
      else f[k])
  }

  lemma ReplacedFlat(m: set<Node>, n: Node, y: Node?, z: Node?, q: Node?, left: bool, f: map<Node, Cell>,
                     g: map<Node, Cell>)
    requires m <= f.Keys && m <= g.Keys
    requires y != null && y in m ==> g[y] == f[y].(parent := n)
    requires z != null && z in m ==> g[z] == f[z].(parent := n)
    requires q != null && q in m && q != y && q != z ==> g[q] == if left then f[q].(left := n) else f[q].(right := n)
    requires forall k :: k in m && k != y && k != z && k != q ==> g[k] == f[k]
    ensures Replaced(m, n, y, z, q, left, f, g)
  {
  }

  ghost predicate Apart(p: Path, l: Tree, n: Node, r: Tree) {
    && Set(l) !! Set(r) && Set(l) !! PathSet(p) && Set(r) !! PathSet(p)
    && n !in Set(l) && n !in Set(r) && n !in PathSet(p)
    && (RootOf(l) != null ==> RootOf(l) in Set(l)) && (RootOf(r) != null ==> RootOf(r) in Set(r))
    && (ParentOf(p) != null ==> ParentOf(p) in PathSet(p))
  }

  lemma ReplacedMoves(p: Path, l: Tree, n: Node, r: Tree, lp: Node?, rp: Node?, f: map<Node, Cell>, g: map<Node, Cell>)
    requires Apart(p, l, n, r) && (RootOf(l) != null ==> RootOf(l) in f && f[RootOf(l)].parent == lp)
    requires RootOf(r) != null ==> RootOf(r) in f && f[RootOf(r)].parent == rp
    requires Replaced(Set(l) + Set(r) + PathSet(p), n, RootOf(l), RootOf(r), ParentOf(p), p.Left?, f, g)
    ensures Moved(l, lp, n, f, g) && Moved(r, rp, n, f, g) && Refilled(p, n, f, g)
  {
    hide Set, PathSet;
  }

  /** What replacing the node of a fork needs to know. */
  lemma ReplaceFacts(p: Path, t: Tree, n: Node, f: map<Node, Cell>)
    requires Linked(Plug(p, t), null, f) && t.Fork? && n !in Set(Plug(p, t))
    ensures Apart(p, t.left, n, t.right)
    ensures var s, u := Set(Plug(p, t)), Fork(t.left, n, t.balance, t.right);
            && s - {t.node} == Set(t.left) + Set(t.right) + PathSet(p) && Set(Plug(p, u)) == s - {t.node} + {n}
            && RootOf(Plug(p, u)) == (if p == Top then n else RootOf(Plug(p, t)))
    ensures LinkedPath(p, t.node, f) && Linked(t.left, t.node, f) && Linked(t.right, t.node, f)
  {
    var u := Fork(t.left, n, t.balance, t.right);
    Split(p, t, f);
    PlugNodes(p, t);
    PlugNodes(p, u);
    PlugRoot(p, t, u);
    PathNodes(p, t.node, f);
    RootIn(t.left, t.node, f);
    RootIn(t.right, t.node, f);
    assert Set(t) == Set(t.left) + {t.node} + Set(t.right) && Set(u) == Set(t.left) + {n} + Set(t.right);
    assert Linked(t.left, t.node, f) && Linked(t.right, t.node, f);
    hide LinkedPath, Linked, Plug, PathSet, Set;
    ExchangeMember(Set(t.left), Set(t.right), PathSet(p), t.node, n);
  }

  lemma ExchangeMember<T>(a: set<T>, b: set<T>, c: set<T>, x: T, n: T)
    ensures x !in a && x !in b && x !in c ==> a + {x} + b + c - {x} == a + b + c
    ensures x !in a && x !in b && x !in c ==> a + {n} + b + c == a + {x} + b + c - {x} + {n}
  {
  }

  /** The nodes touched by that. */
  lemma ReplaceNodes(p: Path, t: Tree, n: Node, f: map<Node, Cell>)
    requires Linked(Plug(p, t), null, f) && t.Fork? && t.left.Fork? && t.right.Fork? && n !in Set(Plug(p, t))
    ensures var m, x, y, z, q := Set(Plug(p, t)), t.node, t.left.node, t.right.node, ParentOf(p);
            && x in m && y in m && z in m && x != y && x != z && y != z
            && (q != null ==> q in m && q != x && q != y && q != z)
    ensures var m, u := Set(Plug(p, t)), Fork(t.left, n, t.balance, t.right);
            Set(Plug(p, u)) == m - {t.node} + {n} && RootOf(Plug(p, u)) == (if p == Top then n else RootOf(Plug(p, t)))
  {
    ReplaceFacts(p, t, n, f);
    Split(p, t, f);
    PlugNodes(p, t);
    PathNodes(p, t.node, f);
    assert t.left.node in Set(t.left) && t.right.node in Set(t.right);
    assert t.left.node in Set(t) && t.right.node in Set(t) && t.node in Set(t);
    hide LinkedPath, Plug, PathSet;
  }

  lemma TookPlace(p: Path, t: Tree, n: Node, f: map<Node, Cell>, g: map<Node, Cell>)
    requires Linked(Plug(p, t), null, f) && t.Fork? && n !in Set(Plug(p, t))
    requires Replaced(Set(Plug(p, t)) - {t.node}, n, RootOf(t.left), RootOf(t.right), ParentOf(p), p.Left?, f, g)
    requires n in g && g[n] == Cell(RootOf(t.left), RootOf(t.right), ParentOf(p), t.balance)
    ensures Linked(Plug(p, Fork(t.left, n, t.balance, t.right)), null, g)
  {
    ReplaceFacts(p, t, n, f);
    RootIn(t.left, t.node, f);
    RootIn(t.right, t.node, f);
    hide Replaced, Plug, Linked, LinkedPath, Set, PathSet, RootOf;
    ReplacedMoves(p, t.left, n, t.right, t.node, t.node, f, g);
    Rebuilt(p, t.left, n, t.balance, t.right, t.node, t.node, t.node, f, g);
  }

  /** The second case of `avl_del`: the right child, which has no left child, takes the place of `t`'s node. */
  lemma RaiseFacts(p: Path, t: Tree, f: map<Node, Cell>)
    requires Linked(Plug(p, t), null, f) && t.Fork? && t.right.Fork? && t.right.left == Leaf
    ensures Apart(p, t.left, t.right.node, t.right.right) && t.node != t.right.node
    ensures var s, n, u := Set(Plug(p, t)), t.right.node, Fork(t.left, t.right.node, t.balance, t.right.right);
            && s - {t.node} == Set(t.left) + Set(t.right.right) + PathSet(p) + {n} && Set(Plug(p, u)) == s - {t.node}
            && RootOf(Plug(p, u)) == (if p == Top then n else RootOf(Plug(p, t)))
    ensures LinkedPath(p, t.node, f) && Linked(t.left, t.node, f) && Linked(t.right.right, t.right.node, f)
  {
    var u := Fork(t.left, t.right.node, t.balance, t.right.right);
    Split(p, t, f);
    PlugNodes(p, t);
    PlugNodes(p, u);
    PlugRoot(p, t, u);
    RaiseApart(p, t, f);
    assert Set(u) == Set(t.left) + {t.right.node} + Set(t.right.right);
    hide Linked, LinkedPath, Plug, PathSet, Set, Apart;
  }

  lemma RaiseApart(p: Path, t: Tree, f: map<Node, Cell>)
    requires LinkedPath(p, RootOf(t), f) && Linked(t, ParentOf(p), f) && Set(t) !! PathSet(p)
    requires t.Fork? && t.right.Fork? && t.right.left == Leaf
    ensures Apart(p, t.left, t.right.node, t.right.right) && t.node != t.right.node
    ensures Set(t) == Set(t.left) + {t.node} + (Set(t.right.right) + {t.right.node})
    ensures t.node !in Set(t.left) && t.node !in Set(t.right.right) && t.node !in PathSet(p)
    ensures Linked(t.left, t.node, f) && Linked(t.right.right, t.right.node, f)
  {
    PathNodes(p, t.node, f);
    RootIn(t.left, t.node, f);
    RootIn(t.right.right, t.right.node, f);
    assert Set(t) == Set(t.left) + {t.node} + (Set(t.right.right) + {t.right.node});
    hide LinkedPath, PathSet;
  }

  /** The nodes touched by that. */
  lemma RaiseNodes(p: Path, t: Tree, f: map<Node, Cell>)
    requires Linked(Plug(p, t), null, f) && t.Fork? && t.right.Fork? && t.right.left == Leaf
    ensures var m, x, y, z, q := Set(Plug(p, t)), t.node, RootOf(t.left), t.right.node, ParentOf(p);
            && x in m && z in m && x != z && (y != null ==> y in m && y != x && y != z)
            && (q != null ==> q in m && q != x && q != y && q != z)
    ensures var m, u := Set(Plug(p, t)), Fork(t.left, t.right.node, t.balance, t.right.right);
            && Set(Plug(p, u)) == m - {t.node}
            && RootOf(Plug(p, u)) == (if p == Top then t.right.node else RootOf(Plug(p, t)))
  {
    RaiseFacts(p, t, f);
    Split(p, t, f);
    PlugNodes(p, t);
    PathNodes(p, t.node, f);
    RootIn(t.left, t.node, f);
    assert t.right.node in Set(t) && t.node in Set(t) && Set(t.left) <= Set(t);
    hide LinkedPath, Plug, PathSet;
  }

  lemma Raised(p: Path, t: Tree, f: map<Node, Cell>, g: map<Node, Cell>)
    requires Linked(Plug(p, t), null, f) && t.Fork? && t.right.Fork? && t.right.left == Leaf
    requires Replaced(Set(Plug(p, t)) - {t.node, t.right.node}, t.right.node, RootOf(t.left), null,
                      ParentOf(p), p.Left?, f, g)
    requires t.right.node in g && g[t.right.node] == Cell(RootOf(t.left), RootOf(t.right.right), ParentOf(p), t.balance)
    ensures Linked(Plug(p, Fork(t.left, t.right.node, t.balance, t.right.right)), null, g)
  {
    var l, n, r := t.left, t.right.node, t.right.right;
    RaiseFacts(p, t, f);
    hide Plug, LinkedPath;
    assert Set(Plug(p, t)) - {t.node, n} == Set(l) + Set(r) + PathSet(p);
    RaisedMoves(p, l, n, r, t.node, f, g);
    hide Replaced, Linked, Set, PathSet;
    Rebuilt(p, l, n, t.balance, r, t.node, t.node, n, f, g);
  }

  lemma RaisedMoves(p: Path, l: Tree, n: Node, r: Tree, x: Node, f: map<Node, Cell>, g: map<Node, Cell>)
    requires Apart(p, l, n, r) && n != x
    requires Replaced(Set(l) + Set(r) + PathSet(p), n, RootOf(l), null, ParentOf(p), p.Left?, f, g)
    ensures Moved(l, x, n, f, g) && Moved(r, n, n, f, g) && Refilled(p, n, f, g)
  {
    hide Set, PathSet;
  }

  // ---------- What restores balance ----------

  /** The tree after a left rotation of `child` and a right one of its parent, balances set. */
  ghost function LeftRight(t: Tree): Tree
    requires t.Fork? && t.left.Fork? && t.left.right.Fork?
  {
    var c, g := t.left, t.left.right;
    Fork(Fork(c.left, c.node, if g.balance == -1 || g.balance == 0 then 0 else -1, g.left), g.node, 0,
         Fork(g.right, t.node, if g.balance == -1 then 1 else 0, t.right))
  }

  ghost function RightLeft(t: Tree): Tree
    requires t.Fork? && t.right.Fork? && t.right.left.Fork?
  {
    var c, g := t.right, t.right.left;
    Fork(Fork(t.left, t.node, if g.balance == -1 || g.balance == 0 then 0 else -1, g.left), g.node, 0,
         Fork(g.right, c.node, if g.balance == -1 then 1 else 0, c.right))
  }

  /** A fork out of balance, whose subtrees are balanced. */
  ghost predicate Tilted(t: Tree, b: int) {
    t.Fork? && t.balance as int == b == Height(t.right) - Height(t.left) && Balanced(t.left) && Balanced(t.right)
    && (b < 0 ==> t.left.Fork?) && (b > 0 ==> t.right.Fork?)
  }

  lemma LeftRightBalances(t: Tree)
    requires Tilted(t, -2) && t.left.balance == 1
    ensures t.left.right.Fork? && Balanced(LeftRight(t)) && Height(LeftRight(t)) == Height(t) - 1
  {
    var g := t.left.right;
    assert Weighed(Height(t.left.left), 1, Height(g));
    assert Balanced(g) && Weighed(Height(g.left), g.balance, Height(g.right));
    assert Balanced(LeftRight(t).left) && Balanced(LeftRight(t).right);
  }

  lemma RightLeftBalances(t: Tree)
    requires Tilted(t, 2) && t.right.balance == -1
    ensures t.right.left.Fork? && Balanced(RightLeft(t)) && Height(RightLeft(t)) == Height(t) - 1
  {
    var g := t.right.left;
    assert Weighed(Height(g), -1, Height(t.right.right));
    assert Balanced(g) && Weighed(Height(g.left), g.balance, Height(g.right));
    assert Balanced(RightLeft(t).left) && Balanced(RightLeft(t).right);
  }

  /** A subtree that has just become higher by one, and whose path does not know of it yet.  `b` is the
      balance its root had before, or 0 if the root is new. */
  ghost predicate Grown(p: Path, t: Tree, b: Bits3) {
    && t.Fork? && Balanced(t.left) && Balanced(t.right) && t.balance as int == Height(t.right) - Height(t.left)
    && if b == 0 then
         && -1 <= t.balance <= 1 && BalancedPath(p, Height(t) - 1)
         && (t.balance != 0 || Height(t) == 1)
       else if t.balance == 0 then
         BalancedPath(p, Height(t))
       else
         && BalancedPath(p, Height(t) - 1)
         && ((t.balance == -2 && t.left.Fork? && t.left.balance != 0) ||
             (t.balance == 2 && t.right.Fork? && t.right.balance != 0))
  }

  /** One step up. */
  ghost function Above(p: Path, t: Tree): Tree
    requires p != Top && -4 < p.balance < 3
  {
    if p.Left? then Fork(t, p.node, p.balance - 1, p.right) else Fork(p.left, p.node, p.balance + 1, t)
  }

  lemma GrowsUp(p: Path, t: Tree)
    requires Grown(p, t, 0) && p != Top
    ensures -1 <= p.balance <= 1 && Grown(p.up, Above(p, t), p.balance)
  {
    hide BalancedPath;
    assert Balanced(t) && (t.balance != 0 || Height(t) == 1) && BalancedPath(p, Height(t) - 1);
    hide *;
    UnfoldPath(p, Height(t) - 1);
    AboveIs(p, t);
    if p.Left? {
      GrowsLeft(p.up, p.node, p.balance, p.right, t);
    } else {
      GrowsRight(p.up, p.left, p.node, p.balance, t);
    }
  }

  lemma UnfoldPath(p: Path, h: nat)
    requires BalancedPath(p, h)
    ensures p != Top ==> -1 <= p.balance <= 1
    ensures p.Left? ==> Weighed(h, p.balance, Height(p.right)) && Balanced(p.right)
    ensures p.Left? ==> BalancedPath(p.up, 1 + Higher(h, Height(p.right)))
    ensures p.Right? ==> Weighed(Height(p.left), p.balance, h) && Balanced(p.left)
    ensures p.Right? ==> BalancedPath(p.up, 1 + Higher(Height(p.left), h))
  {
  }

  lemma AboveIs(p: Path, t: Tree)
    requires p != Top && -4 < p.balance < 3
    ensures Above(p, t) ==
            if p.Left? then Fork(t, p.node, p.balance - 1, p.right) else Fork(p.left, p.node, p.balance + 1, t)
  {
  }

  lemma GrowsLeft(up: Path, n: Node, b: Bits3, r: Tree, t: Tree)
    requires t.Fork? && Balanced(t) && (t.balance != 0 || Height(t) == 1)
    requires Balanced(r) && Weighed(Height(t) - 1, b, Height(r))
    requires BalancedPath(up, 1 + Higher(Height(t) - 1, Height(r)))
    ensures Grown(up, Fork(t, n, b - 1, r), b)
  {
    var u := Fork(t, n, b - 1, r);
    assert Height(u) == 1 + Higher(Height(t), Height(r));
    hide Balanced, BalancedPath, Height;
  }

  lemma GrowsRight(up: Path, l: Tree, n: Node, b: Bits3, t: Tree)
    requires t.Fork? && Balanced(t) && (t.balance != 0 || Height(t) == 1)
    requires Balanced(l) && Weighed(Height(l), b, Height(t) - 1)
    requires BalancedPath(up, 1 + Higher(Height(l), Height(t) - 1))
    ensures Grown(up, Fork(l, n, b + 1, t), b)
  {
    var u := Fork(l, n, b + 1, t);
    assert Height(u) == 1 + Higher(Height(l), Height(t));
    hide Balanced, BalancedPath, Height;
  }

  /** The tree after a right rotation, balances set. */
  ghost function SingleRight(t: Tree, cb: Bits3, b: Bits3): Tree
    requires t.Fork? && t.left.Fork?
  {
    Fork(t.left.left, t.left.node, cb, Fork(t.left.right, t.node, b, t.right))
  }

  ghost function SingleLeft(t: Tree, cb: Bits3, b: Bits3): Tree
    requires t.Fork? && t.right.Fork?
  {
    Fork(Fork(t.left, t.node, b, t.right.left), t.right.node, cb, t.right.right)
  }

  lemma SingleRotationsBalance(t: Tree)
    ensures Tilted(t, -2) && t.left.balance == -1 ==>
              Balanced(SingleRight(t, 0, 0)) && Height(SingleRight(t, 0, 0)) == Height(t) - 1
    ensures Tilted(t, 2) && t.right.balance == 1 ==>
              Balanced(SingleLeft(t, 0, 0)) && Height(SingleLeft(t, 0, 0)) == Height(t) - 1
    ensures Tilted(t, -2) && t.left.balance == 0 ==>
              Balanced(SingleRight(t, 1, -1)) && Height(SingleRight(t, 1, -1)) == Height(t)
    ensures Tilted(t, 2) && t.right.balance == 0 ==>
              Balanced(SingleLeft(t, -1, 1)) && Height(SingleLeft(t, -1, 1)) == Height(t)
  {
  }

  /** The rotations chosen end the growth. */
  lemma GrowthEnds(p: Path, t: Tree, b: Bits3)
    requires Grown(p, t, b) && (b == 0 ==> p == Top)
    ensures t.Fork? && (t.balance != -2 && t.balance != 2 ==> Balanced(Plug(p, t)))
    ensures t.balance == -2 ==> t.left.Fork? && if t.left.balance == -1 then Balanced(Plug(p, SingleRight(t, 0, 0)))
                                              else t.left.right.Fork? && Balanced(Plug(p, LeftRight(t)))
    ensures t.balance == 2 ==> t.right.Fork? && if t.right.balance == 1 then Balanced(Plug(p, SingleLeft(t, 0, 0)))
                                              else t.right.left.Fork? && Balanced(Plug(p, RightLeft(t)))
  {
    PlugBalanced(p, t);
    if t.balance == -2 { LeftGrowthEnds(p, t, b); }
    if t.balance == 2 { RightGrowthEnds(p, t, b); }
    hide SingleLeft, SingleRight, LeftRight, RightLeft, Plug;
  }

  lemma LeftGrowthEnds(p: Path, t: Tree, b: Bits3)
    requires Grown(p, t, b) && t.balance == -2
    ensures t.left.Fork? && if t.left.balance == -1 then Balanced(Plug(p, SingleRight(t, 0, 0)))
                            else t.left.right.Fork? && Balanced(Plug(p, LeftRight(t)))
  {
    if t.left.balance == -1 {
      SingleRotationsBalance(t);
      PlugBalanced(p, SingleRight(t, 0, 0));
    } else {
      LeftRightBalances(t);
      PlugBalanced(p, LeftRight(t));
    }
    hide Plug, SingleRight, LeftRight;
  }

  lemma RightGrowthEnds(p: Path, t: Tree, b: Bits3)
    requires Grown(p, t, b) && t.balance == 2
    ensures t.right.Fork? && if t.right.balance == 1 then Balanced(Plug(p, SingleLeft(t, 0, 0)))
                             else t.right.left.Fork? && Balanced(Plug(p, RightLeft(t)))
  {
    if t.right.balance == 1 {
      SingleRotationsBalance(t);
      PlugBalanced(p, SingleLeft(t, 0, 0));
    } else {
      RightLeftBalances(t);
      PlugBalanced(p, RightLeft(t));
    }
    hide Plug, SingleLeft, RightLeft;
  }

  ghost predicate WasWeighed(p: Path, l: nat, b: Bits3, r: nat) {
    Weighed(l, b, r) && BalancedPath(p, 1 + Higher(l, r))
  }

  /** The subtree of `u` in direction `right` has just become lower by one, which neither `u` nor its
      path know yet. */
  ghost predicate Shrunk(p: Path, u: Tree, right: bool) {
    && u.Fork? && Balanced(u.left) && Balanced(u.right)
    && if right then WasWeighed(p, Height(u.left), u.balance, Height(u.right) + 1)
       else WasWeighed(p, Height(u.left) + 1, u.balance, Height(u.right))
  }

  /** What one turn of the loop of `avl_del` makes of it, and whether it is the last one. */
  ghost function Restored(u: Tree, right: bool): (Tree, bool)
    requires u.Fork? && -1 <= u.balance <= 1
    requires !right && u.balance == 1 ==> u.right.Fork? && (u.right.balance == -1 ==> u.right.left.Fork?)
    requires right && u.balance == -1 ==> u.left.Fork? && (u.left.balance == 1 ==> u.left.right.Fork?)
  {
    if !right then
      var v := u.(balance := u.balance + 1);
      if v.balance == 1 then (v, true)
      else if v.balance == 0 then (v, false)
      else if v.right.balance == -1 then (RightLeft(v), false)
      else if v.right.balance == 0 then (SingleLeft(v, -1, 1), true)
      else (SingleLeft(v, 0, 0), false)
    else
      var v := u.(balance := u.balance - 1);
      if v.balance == -1 then (v, true)
      else if v.balance == 0 then (v, false)
      else if v.left.balance == 1 then (LeftRight(v), false)
      else if v.left.balance == 0 then (SingleRight(v, 1, -1), true)
      else (SingleRight(v, 0, 0), false)
  }

  lemma ShrunkCanBeRestored(p: Path, u: Tree, right: bool)
    requires Shrunk(p, u, right)
    ensures u.Fork? && -1 <= u.balance <= 1
    ensures !right && u.balance == 1 ==> u.right.Fork? && (u.right.balance == -1 ==> u.right.left.Fork?)
    ensures right && u.balance == -1 ==> u.left.Fork? && (u.left.balance == 1 ==> u.left.right.Fork?)
  {
    if !right && u.balance == 1 && u.right.balance == -1 { RightLeftBalances(u.(balance := 2)); }
    if right && u.balance == -1 && u.left.balance == 1 { LeftRightBalances(u.(balance := -2)); }
  }

  /** The outcome is balanced; it is as high as before if that was the last turn, and lower by one if not. */
  lemma Restores(p: Path, u: Tree, right: bool)
    requires Shrunk(p, u, right)
    ensures u.Fork? && -1 <= u.balance <= 1
    ensures !right && u.balance == 1 ==> u.right.Fork? && (u.right.balance == -1 ==> u.right.left.Fork?)
    ensures right && u.balance == -1 ==> u.left.Fork? && (u.left.balance == 1 ==> u.left.right.Fork?)
    ensures var (v, done) := Restored(u, right);
            Balanced(v) && BalancedPath(p, if done then Height(v) else Height(v) + 1)
  {
    ShrunkCanBeRestored(p, u, right);
    if !right && u.balance == 1 {
      RestoresLeft(p, u);
    } else if right && u.balance == -1 {
      RestoresRight(p, u);
    } else {
      hide BalancedPath;
      var v := Restored(u, right).0;
      assert v.left == u.left && v.right == u.right;
    }
  }

  lemma RestoresLeft(p: Path, u: Tree)
    requires Shrunk(p, u, false) && u.balance == 1
    ensures u.right.Fork? && (u.right.balance == -1 ==> u.right.left.Fork?)
    ensures var (v, done) := Restored(u, false);
            Balanced(v) && BalancedPath(p, if done then Height(v) else Height(v) + 1)
  {
    var w := u.(balance := 2);
    assert Tilted(w, 2) && Height(w) == 1 + Height(u.right);
    SingleRotationsBalance(w);
    if u.right.balance == -1 { RightLeftBalances(w); }
    hide BalancedPath, Height, Balanced, RightLeft, SingleLeft;
  }

  lemma RestoresRight(p: Path, u: Tree)
    requires Shrunk(p, u, true) && u.balance == -1
    ensures u.left.Fork? && (u.left.balance == 1 ==> u.left.right.Fork?)
    ensures var (v, done) := Restored(u, true);
            Balanced(v) && BalancedPath(p, if done then Height(v) else Height(v) + 1)
  {
    var w := u.(balance := -2);
    assert Tilted(w, -2) && Height(w) == 1 + Height(u.left);
    SingleRotationsBalance(w);
    if u.left.balance == 1 { LeftRightBalances(w); }
    hide BalancedPath, Height, Balanced, LeftRight, SingleRight;
  }

  lemma ShrinksUp(p: Path, v: Tree)
    requires Balanced(v) && BalancedPath(p, Height(v) + 1) && p != Top
    ensures p.Left? ==> Shrunk(p.up, Fork(v, p.node, p.balance, p.right), false)
    ensures p.Right? ==> Shrunk(p.up, Fork(p.left, p.node, p.balance, v), true)
  {
    hide Height, Balanced, Higher;
    match p
    case Left(_, b, r, up) => assert WasWeighed(up, Height(v) + 1, b, Height(r));
    case Right(l, _, b, up) => assert WasWeighed(up, Height(l), b, Height(v) + 1);
  }

  lemma RemoveMiddle(b: seq<Node>, l: seq<Node>, x: Node, r: seq<Node>, w: seq<Node>)
    ensures InsertedOnce(b + (l + r) + w, b + (l + [x] + r) + w, x)
  {
    Regroup(b, l, [x], r, w);
    assert b + (l + r) + w == (b + l) + (r + w);
    PutIn(b + l, x, r + w);
  }

  lemma RemovedOnce(p: Path, t: Tree, u: Tree)
    requires t.Fork? && Nodes(u) == Nodes(t.left) + Nodes(t.right)
    ensures InsertedOnce(Nodes(Plug(p, u)), Nodes(Plug(p, t)), t.node)
  {
    PlugNodes(p, t);
    PlugNodes(p, u);
    RemoveMiddle(Before(p), Nodes(t.left), t.node, Nodes(t.right), After(p));
    assert Nodes(t) == Nodes(t.left) + [t.node] + Nodes(t.right);
    hide Plug, Nodes, Before, After, InsertedOnce;
  }

  /** The first case of a deletion. */
  lemma WithoutRight(p: Path, t: Tree)
    requires t.Fork? && t.right == Leaf && Balanced(Plug(p, t))
    ensures InsertedOnce(Nodes(Plug(p, t.left)), Nodes(Plug(p, t)), t.node)
    ensures p == Top ==> Balanced(Plug(p, t.left))
    ensures p.Left? ==> Shrunk(p.up, Fork(t.left, p.node, p.balance, p.right), false)
    ensures p.Right? ==> Shrunk(p.up, Fork(p.left, p.node, p.balance, t.left), true)
  {
    PlugBalanced(p, t);
    assert Height(t) == Height(t.left) + 1 && Nodes(t.left) + Nodes(t.right) == Nodes(t.left);
    hide Nodes, Height, InsertedOnce, Shrunk;
    RemovedOnce(p, t, t.left);
    if p != Top { ShrinksUp(p, t.left); }
  }

  /** The second. */
  lemma RightRaised(p: Path, t: Tree)
    requires t.Fork? && t.right.Fork? && t.right.left == Leaf && Balanced(Plug(p, t))
    ensures var u := Fork(t.left, t.right.node, t.balance, t.right.right);
            InsertedOnce(Nodes(Plug(p, u)), Nodes(Plug(p, t)), t.node) && Shrunk(p, u, true)
  {
    var u := Fork(t.left, t.right.node, t.balance, t.right.right);
    RaisedBalance(p, t);
    assert Nodes(t.right) == [t.right.node] + Nodes(u.right);
    assert Nodes(u) == Nodes(u.left) + [u.node] + Nodes(u.right);
    hide Nodes, Plug, InsertedOnce, Shrunk;
    RemovedOnce(p, t, u);
  }

  lemma RaisedBalance(p: Path, t: Tree)
    requires t.Fork? && t.right.Fork? && t.right.left == Leaf && Balanced(Plug(p, t))
    ensures Shrunk(p, Fork(t.left, t.right.node, t.balance, t.right.right), true)
  {
    PlugBalanced(p, t);
    assert Balanced(t.right) && Height(t.right) == 1 + Height(t.right.right);
    hide Plug, BalancedPath;
    assert WasWeighed(p, Height(t.left), t.balance, Height(t.right.right) + 1);
  }

  lemma {:induction false} BalanceIgnoresNode(s: Path, l: Tree, x: Node, y: Node, b: Bits3, p: Path, h: nat)
    requires BalancedPath(Over(s, Right(l, x, b, p)), h)
    ensures BalancedPath(Over(s, Right(l, y, b, p)), h)
  {
    match s
    case Top =>
    case Left(_, _, r, up) => BalanceIgnoresNode(up, l, x, y, b, p, 1 + Higher(h, Height(r)));
    case Right(k, _, _, up) => BalanceIgnoresNode(up, l, x, y, b, p, 1 + Higher(Height(k), h));
  }

  /** The third: `w` is the subtree of the successor, at the end of the left spine `s` of the right child;
      seen from the successor's parent, the tree becomes this. */
  lemma SuccessorShape(p: Path, l: Tree, n: Node, b: Bits3, s: Path, v: Tree)
    requires s.Left?
    ensures Plug(Over(s.up, Right(l, n, b, p)), Fork(v, s.node, s.balance, s.right)) ==
            Plug(p, Fork(l, n, b, Plug(s, v)))
  {
    PlugOver(s.up, Right(l, n, b, p), Fork(v, s.node, s.balance, s.right));
  }

  lemma SuccessorOrder(p: Path, t: Tree, s: Path, w: Tree)
    requires t.Fork? && t.right == Plug(s, w) && LeftSpine(s) && w.Fork? && w.left == Leaf
    ensures InsertedOnce(Nodes(Plug(p, Fork(t.left, w.node, t.balance, Plug(s, w.right)))), Nodes(Plug(p, t)), t.node)
  {
    var u := Fork(t.left, w.node, t.balance, Plug(s, w.right));
    SuccessorFirst(s, w);
    assert Nodes(u) == Nodes(t.left) + [w.node] + Nodes(u.right);
    hide Plug, Nodes, InsertedOnce, LeftSpine;
    RemovedOnce(p, t, u);
  }

  lemma SuccessorTaken(p: Path, t: Tree, s: Path, w: Tree)
    requires t.Fork? && Balanced(Plug(p, t)) && t.right == Plug(s, w) && s.Left? && w.Fork? && w.left == Leaf
    ensures Shrunk(Over(s.up, Right(t.left, w.node, t.balance, p)), Fork(w.right, s.node, s.balance, s.right), false)
  {
    hide *;
    SpineBalanced(p, t, s, w);
    SuccessorPath(p, t.left, t.node, w.node, t.balance, s, Height(w));
    SuccessorBalance(Over(s.up, Right(t.left, w.node, t.balance, p)), s.node, s.balance, s.right, w);
  }

  /** What the third case relies on. */
  lemma SuccessorFacts(p: Path, t: Tree, s: Path, w: Tree)
    requires t.Fork? && Balanced(Plug(p, t)) && t.right == Plug(s, w)
    requires LeftSpine(s) && s.Left? && w.Fork? && w.left == Leaf
    ensures var l, x, y, b := t.left, t.node, w.node, t.balance;
            var path, q := Over(s, Right(l, x, b, p)), Over(s.up, Right(l, y, b, p));
            var u := Fork(w.right, s.node, s.balance, s.right);
            && Plug(p, t) == Plug(path, w) && path.Left? && path.node == s.node
            && Plug(path, w.right) == Plug(p, Fork(l, x, b, Plug(s, w.right))) && Plug(s, w.right).Fork?
            && Plug(q, u) == Plug(p, Fork(l, y, b, Plug(s, w.right))) && Shrunk(q, u, false)
            && InsertedOnce(Nodes(Plug(p, Fork(l, y, b, Plug(s, w.right)))), Nodes(Plug(p, t)), x)
  {
    var l, x, y, b := t.left, t.node, w.node, t.balance;
    OverLeft(s, Right(l, x, b, p));
    PlugOver(s, Right(l, x, b, p), w);
    PlugOver(s, Right(l, x, b, p), w.right);
    RightHole(p, l, x, b, t.right);
    RightHole(p, l, x, b, Plug(s, w.right));
    PlugForks(s, w.right);
    hide *;
    SuccessorShape(p, l, y, b, s, w.right);
    SuccessorOrder(p, t, s, w);
    SuccessorTaken(p, t, s, w);
  }

  lemma OverLeft(s: Path, p: Path)
    requires s.Left?
    ensures Over(s, p) == Left(s.node, s.balance, s.right, Over(s.up, p))
  {
  }

  lemma RightHole(p: Path, l: Tree, x: Node, b: Bits3, r: Tree)
    ensures Plug(Right(l, x, b, p), r) == Plug(p, Fork(l, x, b, r))
  {
  }

  /** The successor is the first of the right subtree. */
  lemma SuccessorFirst(s: Path, w: Tree)
    requires LeftSpine(s) && w.Fork? && w.left == Leaf
    ensures Nodes(Plug(s, w)) == [w.node] + Nodes(Plug(s, w.right))
  {
    SpineBefore(s);
    PlugNodes(s, w);
    PlugNodes(s, w.right);
    var r, a := Nodes(w.right), After(s);
    assert Nodes(w) == [w.node] + r;
    hide *;
    FirstOut(w.node, r, a);
  }

  lemma FirstOut(n: Node, r: seq<Node>, a: seq<Node>)
    ensures [] + ([n] + r) + a == [n] + ([] + r + a)
  {
  }

  /** With a right child that has a left child, there is a left child too. */
  lemma LeftChildExists(p: Path, t: Tree)
    requires t.Fork? && Balanced(Plug(p, t)) && t.right.Fork? && t.right.left.Fork?
    ensures t.left.Fork?
  {
    PlugBalanced(p, t);
    assert Weighed(Height(t.left), t.balance, Height(t.right)) && Height(t.right) >= 1 + Height(t.right.left) >= 2;
  }

  lemma SuccessorPath(p: Path, l: Tree, x: Node, y: Node, b: Bits3, s: Path, h: nat)
    requires s.Left? && BalancedPath(Over(s, Right(l, x, b, p)), h)
    ensures BalancedPath(Left(s.node, s.balance, s.right, Over(s.up, Right(l, y, b, p))), h)
  {
    BalanceIgnoresNode(s, l, x, y, b, p, h);
  }

  lemma HeightWithoutLeft(t: Tree)
    requires t.Fork? && t.left == Leaf
    ensures Height(t) == Height(t.right) + 1
  {
  }

  lemma LeftShrunk(p: Path, u: Tree)
    requires u.Fork? && Balanced(u.left) && Balanced(u.right)
    requires Weighed(Height(u.left) + 1, u.balance, Height(u.right))
    requires BalancedPath(p, 1 + Higher(Height(u.left) + 1, Height(u.right)))
    ensures Shrunk(p, u, false)
  {
    hide Weighed, Balanced, BalancedPath, Height, Higher;
  }

  lemma SuccessorBalance(q: Path, n: Node, b: Bits3, r: Tree, w: Tree)
    requires w.Fork? && w.left == Leaf && Balanced(w.right) && BalancedPath(Left(n, b, r, q), Height(w))
    ensures Shrunk(q, Fork(w.right, n, b, r), false)
  {
    hide *;
    var p := Left(n, b, r, q);
    UnfoldPath(p, Height(w));
    HeightWithoutLeft(w);
    LeftShrunk(q, Fork(w.right, n, b, r));
  }

  lemma SpineBalanced(p: Path, t: Tree, s: Path, w: Tree)
    requires t.Fork? && Balanced(Plug(p, t)) && t.right == Plug(s, w) && w.Fork?
    ensures Balanced(w.right) && BalancedPath(Over(s, Right(t.left, t.node, t.balance, p)), Height(w))
  {
    var q := Over(s, Right(t.left, t.node, t.balance, p));
    PlugOver(s, Right(t.left, t.node, t.balance, p), w);
    hide Before, After, BalancedPath, Height, Over;
    assert Plug(Right(t.left, t.node, t.balance, p), t.right) == Plug(p, t);
    PlugBalanced(q, w);
  }

  /** A balance written in memory is a balance in the tree. */
  lemma Rebalanced(p: Path, t: Tree, b: Bits3, f: map<Node, Cell>)
    requires Linked(Plug(p, t), null, f) && t.Fork? && Set(Plug(p, t)) <= f.Keys
    ensures var s, u, n := Plug(p, t), Plug(p, t.(balance := b)), t.node;
            && Nodes(u) == Nodes(s) && Set(u) == Set(s) && RootOf(u) == RootOf(s) && n in Set(s) && n in f
            && Linked(u, null, f[n := f[n].(balance := b)])
  {
    var u, n := t.(balance := b), t.node;
    Split(p, t, f);
    PlugNodes(p, t);
    PlugNodes(p, u);
    PlugRoot(p, t, u);
    hide Plug;
    var g := f[n := f[n].(balance := b)];
    UnchangedPath(p, n, f, g);
    Unchanged(t.left, n, f, g);
    Unchanged(t.right, n, f, g);
    Split(p, u, g);
  }

  /** What stays the same while a tree is rearranged. */
  twostate predicate SameNodes(a: AvlTree)
    reads a
  {
    Nodes(a.tree) == old(Nodes(a.tree)) && Set(a.tree) == old(Set(a.tree))
  }

  class AvlTree {
    var root: Node?
    ghost var tree: Tree

    /** The pointers make up the tree `tree`. */
    ghost predicate Shaped()
      reads this, Set(tree)
    {
      root == RootOf(tree) && Linked(tree, null, Memory(Set(tree)))
    }

    ghost predicate Valid()
      reads this, Set(tree)
    {
      Shaped() && Balanced(tree)
    }

    constructor ()
      ensures Valid() && tree == Leaf
    {
      root := null;
      tree := Leaf;
    }

    /** `__rotate_left`: the pointers it sets. */
    method RotateLeftLinks(entry: Node, right: Node)
      requires entry.right == right && right != entry && right.left != entry && right.left != right
      requires entry.parent != entry && entry.parent != right && (entry.parent != null ==> entry.parent != right.left)
      modifies this`root, entry, right, if right.left == null then {} else {right.left},
               if entry.parent == null then {} else {entry.parent}
      ensures root == if old(entry.parent) == null then right else old(root)
      ensures Contents(entry) == old(Contents(entry)).(right := old(right.left), parent := right)
      ensures Contents(right) == old(Contents(right)).(left := entry, parent := old(entry.parent))
      ensures old(right.left) != null ==>
                Contents(old(right.left)) == old(Contents(right.left)).(parent := entry)
      ensures old(entry.parent) != null ==>
                var c := old(Contents(entry.parent));
                Contents(old(entry.parent)) == if c.right == entry then c.(right := right) else c.(left := right)
    {
      entry.right := right.left;
      if right.left != null { right.left.parent := entry; }
      right.parent := entry.parent;
      if entry.parent == null {
        root := right;
      } else if entry == entry.parent.right {
        entry.parent.right := right;
      } else {
        entry.parent.left := right;
      }
      right.left := entry;
      entry.parent := right;
    }

    /** What that changes among the nodes `m` of the tree; `side` tells on which side of its parent `entry` is. */
    method RotateLeftCells(entry: Node, right: Node, ghost m: set<Node>, ghost side: bool)
      requires LeftPlace(entry, right, m, side)
      modifies this`root, m
      ensures root == if old(entry.parent) == null then right else old(root)
      ensures RotatedLeft(m, entry, right, old(right.left), old(entry.parent), side, old(Memory(m)), Memory(m))
    {
      ghost var f, z, q := Memory(m), right.left, entry.parent;
      hide RotatedLeft;
      RotateLeftLinks(entry, right);
      RotatedFlat(m, entry, right, z, q, side, f, Memory(m));
    }

    /** The nodes it touches are among `m` and as they should be. */
    ghost predicate LeftPlace(entry: Node, right: Node, m: set<Node>, side: bool)
      reads m
    {
      && entry in m && right in m && entry.right == right && right != entry
      && (right.left != null ==> right.left in m && right.left != entry && right.left != right)
      && entry.parent != entry && entry.parent != right
      && (entry.parent != null ==>
            entry.parent in m && entry.parent != right.left && (entry.parent.right == entry <==> !side))
    }

    lemma LeftRotationHere(p: Path, t: Tree)
      requires Shaped() && tree == Plug(p, t) && t.Fork? && t.right.Fork?
      ensures LeftPlace(t.node, t.right.node, Set(tree), p.Left?)
      ensures t.node in Set(tree) && t.node.right == t.right.node && t.node.parent == ParentOf(p)
      ensures t.right.node.left == RootOf(t.right.left) && (ParentOf(p) == null <==> p == Top)
    {
      LeftRotationNodes(p, t, Memory(Set(tree)));
      hide Linked, LinkedPath, Plug, Set;
    }

    /** A left rotation of the tree. */
    method RotateLeft(entry: Node, ghost p: Path, ghost t: Tree)
      requires Shaped() && tree == Plug(p, t) && t.Fork? && t.right.Fork? && t.node == entry
      modifies this, Set(tree)
      ensures Shaped() && tree == Plug(p, LeftRotated(t))
      ensures Nodes(tree) == old(Nodes(tree)) && Set(tree) == old(Set(tree))
    {
      hide Linked, LinkedPath, LeftRotated, Plug, Set, ParentOf, RootOf, RotatedLeft, Nodes, LeftPlace;
      LeftRotatedNodes(p, t);
      LeftRotationHere(p, t);
      ghost var m := Set(tree);
      ghost var f := Memory(m);
      RotateLeftCells(entry, entry.right, m, p.Left?);
      tree := Plug(p, LeftRotated(t));
      LeftRotation(p, t, f, Memory(m));
    }

    /** `__rotate_right`: the pointers it sets. */
    method RotateRightLinks(entry: Node, left: Node)
      requires entry.left == left && left != entry && left.right != entry && left.right != left
      requires entry.parent != entry && entry.parent != left && (entry.parent != null ==> entry.parent != left.right)
      modifies this`root, entry, left, if left.right == null then {} else {left.right},
               if entry.parent == null then {} else {entry.parent}
      ensures root == if old(entry.parent) == null then left else old(root)
      ensures Contents(entry) == old(Contents(entry)).(left := old(left.right), parent := left)
      ensures Contents(left) == old(Contents(left)).(right := entry, parent := old(entry.parent))
      ensures old(left.right) != null ==>
                Contents(old(left.right)) == old(Contents(left.right)).(parent := entry)
      ensures old(entry.parent) != null ==>
                var c := old(Contents(entry.parent));
                Contents(old(entry.parent)) == if c.right == entry then c.(right := left) else c.(left := left)
    {
      entry.left := left.right;
      if left.right != null { left.right.parent := entry; }
      left.parent := entry.parent;
      if entry.parent == null {
        root := left;
      } else if entry == entry.parent.right {
        entry.parent.right := left;
      } else {
        entry.parent.left := left;
      }
      left.right := entry;
      entry.parent := left;
    }

    /** What that changes among the nodes `m` of the tree; `side` tells on which side of its parent `entry` is. */
    method RotateRightCells(entry: Node, left: Node, ghost m: set<Node>, ghost side: bool)
      requires RightPlace(entry, left, m, side)
      modifies this`root, m
      ensures root == if old(entry.parent) == null then left else old(root)
      ensures RotatedRight(m, entry, left, old(left.right), old(entry.parent), side, old(Memory(m)), Memory(m))
    {
      ghost var f, z, q := Memory(m), left.right, entry.parent;
      hide RotatedRight;
      RotateRightLinks(entry, left);
      RotatedRightFlat(m, entry, left, z, q, side, f, Memory(m));
    }

    /** The nodes it touches are among `m` and as they should be. */
    ghost predicate RightPlace(entry: Node, left: Node, m: set<Node>, side: bool)
      reads m
    {
      && entry in m && left in m && entry.left == left && left != entry
      && (left.right != null ==> left.right in m && left.right != entry && left.right != left)
      && entry.parent != entry && entry.parent != left
      && (entry.parent != null ==>
            entry.parent in m && entry.parent != left.right && (entry.parent.right == entry <==> !side))
    }

    lemma RightRotationHere(p: Path, t: Tree)
      requires Shaped() && tree == Plug(p, t) && t.Fork? && t.left.Fork?
      ensures RightPlace(t.node, t.left.node, Set(tree), p.Left?)
      ensures t.node in Set(tree) && t.node.left == t.left.node && t.node.parent == ParentOf(p)
      ensures t.left.node.right == RootOf(t.left.right) && (ParentOf(p) == null <==> p == Top)
    {
      RightRotationNodes(p, t, Memory(Set(tree)));
      hide Linked, LinkedPath, Plug, Set;
    }

    /** A right rotation of the tree. */
    method RotateRight(entry: Node, ghost p: Path, ghost t: Tree)
      requires Shaped() && tree == Plug(p, t) && t.Fork? && t.left.Fork? && t.node == entry
      modifies this, Set(tree)
      ensures Shaped() && tree == Plug(p, RightRotated(t))
      ensures Nodes(tree) == old(Nodes(tree)) && Set(tree) == old(Set(tree))
    {
      hide Linked, LinkedPath, RightRotated, Plug, Set, ParentOf, RootOf, RotatedRight, Nodes, RightPlace;
      RightRotatedNodes(p, t);
      RightRotationHere(p, t);
      ghost var m := Set(tree);
      ghost var f := Memory(m);
      RotateRightCells(entry, entry.left, m, p.Left?);
      tree := Plug(p, RightRotated(t));
      RightRotation(p, t, f, Memory(m));
    }

    /** What can be read at a node. */
    lemma Here(p: Path, t: Tree)
      requires Shaped() && tree == Plug(p, t) && t.Fork?
      ensures t.node in Set(tree) && Contents(t.node) == Cell(RootOf(t.left), RootOf(t.right), ParentOf(p), t.balance)
      ensures (p == Top <==> ParentOf(p) == null) && (p != Top ==> ParentOf(p) == p.node)
      ensures p != Top ==> p.node in Set(tree) && p.node != t.node && p.node.balance == p.balance
      ensures p.Left? ==> p.node.left == t.node && p.node.right != t.node
      ensures p.Right? ==> p.node.right == t.node && p.node.left != t.node
    {
      var f := Memory(Set(tree));
      Split(p, t, f);
      PlugNodes(p, t);
      PathNodes(p, t.node, f);
    }

    lemma RightChildHere(p: Path, t: Tree)
      requires Shaped() && tree == Plug(p, t) && t.Fork? && t.right.Fork?
      ensures Contents(t.right.node) == Cell(RootOf(t.right.left), RootOf(t.right.right), t.node, t.right.balance)
    {
      Here(Right(t.left, t.node, t.balance, p), t.right);
    }

    method SetBalance(n: Node, b: Bits3, ghost p: Path, ghost t: Tree)
      requires Shaped() && tree == Plug(p, t) && t.Fork? && t.node == n
      modifies this`tree, n`balance
      ensures Shaped() && tree == Plug(p, t.(balance := b)) && root == old(root) && n.balance == b
      ensures Nodes(tree) == old(Nodes(tree)) && Set(tree) == old(Set(tree))
    {
      ghost var f := Memory(Set(tree));
      Rebalanced(p, t, b, f);
      hide Linked, Plug, Set, Nodes, RootOf;
      n.balance := b;
      tree := Plug(p, t.(balance := b));
      assert Memory(Set(tree)) == f[n := f[n].(balance := b)];
    }

    /** The double rotation with its balances. */
    method RotateLeftRight(n: Node, child: Node, ghost p: Path, ghost t: Tree)
      requires Shaped() && tree == Plug(p, t) && t.Fork? && t.left.Fork? && t.left.right.Fork?
      requires t.node == n && t.left.node == child
      modifies this, Set(tree)
      ensures Shaped() && tree == Plug(p, LeftRight(t)) && SameNodes(this)
    {
      ghost var c, up := t.left, Left(n, t.balance, t.right, p);
      Here(up, c);
      hide Shaped, Set, Nodes;
      var grandson := child.right;
      RotateLeft(child, up, c);
      RotateRight(n, p, Fork(LeftRotated(c), n, t.balance, t.right));
      ghost var l, r := Fork(c.left, child, c.balance, c.right.left), Fork(c.right.right, n, t.balance, t.right);
      Here(p, Fork(l, grandson, c.right.balance, r));
      var x: Bits3, y: Bits3;
      if grandson.balance == -1 {
        x, y := 0, 1;
      } else if grandson.balance == 0 {
        x, y := 0, 0;
      } else {
        x, y := -1, 0;
      }
      SetBalance(child, x, Left(grandson, c.right.balance, r, p), l);
      SetBalance(n, y, Right(l.(balance := x), grandson, c.right.balance, p), r);
      SetBalance(grandson, 0, p, Fork(l.(balance := x), grandson, c.right.balance, r.(balance := y)));
    }

    method RotateRightLeft(n: Node, child: Node, ghost p: Path, ghost t: Tree)
      requires Shaped() && tree == Plug(p, t) && t.Fork? && t.right.Fork? && t.right.left.Fork?
      requires t.node == n && t.right.node == child
      modifies this, Set(tree)
      ensures Shaped() && tree == Plug(p, RightLeft(t)) && SameNodes(this)
    {
      ghost var c, up := t.right, Right(t.left, n, t.balance, p);
      Here(up, c);
      hide Shaped, Set, Nodes;
      var grandson := child.left;
      RotateRight(child, up, c);
      RotateLeft(n, p, Fork(t.left, n, t.balance, RightRotated(c)));
      ghost var l, r := Fork(t.left, n, t.balance, c.left.left), Fork(c.left.right, child, c.balance, c.right);
      Here(p, Fork(l, grandson, c.left.balance, r));
      var x: Bits3, y: Bits3;
      if grandson.balance == -1 {
        x, y := 1, 0;
      } else if grandson.balance == 0 {
        x, y := 0, 0;
      } else {
        x, y := 0, -1;
      }
      SetBalance(child, x, Right(l, grandson, c.left.balance, p), r);
      SetBalance(n, y, Left(grandson, c.left.balance, r.(balance := x), p), l);
      SetBalance(grandson, 0, p, Fork(l.(balance := y), grandson, c.left.balance, r.(balance := x)));
    }

    /** `__avl_balance`. */
    method Rebalance(entry: Node, ghost p0: Path)
      requires Shaped() && tree == Plug(p0, Fork(Leaf, entry, 0, Leaf)) && BalancedPath(p0, 0)
      modifies this, Set(tree)
      ensures Valid() && SameNodes(this)
    {
      ghost var p, t := p0, Fork(Leaf, entry, 0, Leaf);
      var n := entry;
      var balance: Bits3 := 0;
      Here(p, t);
      while n.parent != null && balance == 0
        invariant Shaped() && tree == Plug(p, t) && SameNodes(this) && Grown(p, t, balance)
        invariant t.node == n && n in Set(tree) && n.parent == ParentOf(p)
        decreases p
      {
        hide Shaped, Grown, Set, Nodes, Above;
        Here(p, t);
        GrowsUp(p, t);
        balance := Climb(n, p, t);
        p, t := p.up, Above(p, t);
        n := n.parent;
        Here(p, t);
      }
      EndGrowth(n, balance, p, t);
    }

    /** One turn of its loop; returns the balance the parent had. */
    method Climb(n: Node, ghost p: Path, ghost t: Tree) returns (balance: Bits3)
      requires Shaped() && tree == Plug(p, t) && t.Fork? && t.node == n && p != Top && -1 <= p.balance <= 1
      modifies this, Set(tree)
      ensures Shaped() && tree == Plug(p.up, Above(p, t)) && SameNodes(this) && balance == p.balance
      ensures n.parent == old(n.parent) == Above(p, t).node
    {
      ghost var up := if p.Left? then Fork(t, p.node, p.balance, p.right) else Fork(p.left, p.node, p.balance, t);
      Here(p, t);
      hide Shaped, Set, Nodes;
      balance := n.parent.balance;
      if n == n.parent.left {
        SetBalance(n.parent, n.parent.balance - 1, p.up, up);
      } else {
        SetBalance(n.parent, n.parent.balance + 1, p.up, up);
      }
    }

    /** The rotations of `__avl_balance`. */
    method EndGrowth(n: Node, ghost b: Bits3, ghost p: Path, ghost t: Tree)
      requires Shaped() && tree == Plug(p, t) && Grown(p, t, b) && t.node == n && (b == 0 ==> p == Top)
      modifies this, Set(tree)
      ensures Valid() && SameNodes(this)
    {
      GrowthEnds(p, t, b);
      Here(p, t);
      hide Shaped, Set, Nodes, Grown, Balanced;
      if n.balance == -2 {
        Here(Left(n, t.balance, t.right, p), t.left);
        var child := n.left;
        if child.balance == -1 {
          RotateRightWith(n, child, 0, 0, p, t);
        } else {
          RotateLeftRight(n, child, p, t);
        }
      } else if n.balance == 2 {
        Here(Right(t.left, n, t.balance, p), t.right);
        var child := n.right;
        if child.balance == 1 {
          RotateLeftWith(n, child, 0, 0, p, t);
        } else {
          RotateRightLeft(n, child, p, t);
        }
      }
    }

    /** A right rotation and the balances that go with it. */
    method RotateRightWith(n: Node, child: Node, cb: Bits3, b: Bits3, ghost p: Path, ghost t: Tree)
      requires Shaped() && tree == Plug(p, t) && t.Fork? && t.left.Fork? && t.node == n && t.left.node == child
      modifies this, Set(tree)
      ensures Shaped() && tree == Plug(p, SingleRight(t, cb, b)) && SameNodes(this)
    {
      hide Shaped, Set, Nodes;
      RotateRight(n, p, t);
      ghost var r := Fork(t.left.right, n, t.balance, t.right);
      Here(p, RightRotated(t));
      SetBalance(child, cb, p, RightRotated(t));
      Here(Right(t.left.left, child, cb, p), r);
      SetBalance(n, b, Right(t.left.left, child, cb, p), r);
    }

    method RotateLeftWith(n: Node, child: Node, cb: Bits3, b: Bits3, ghost p: Path, ghost t: Tree)
      requires Shaped() && tree == Plug(p, t) && t.Fork? && t.right.Fork? && t.node == n && t.right.node == child
      modifies this, Set(tree)
      ensures Shaped() && tree == Plug(p, SingleLeft(t, cb, b)) && SameNodes(this)
    {
      hide Shaped, Set, Nodes;
      RotateLeft(n, p, t);
      ghost var l := Fork(t.left, n, t.balance, t.right.left);
      Here(p, LeftRotated(t));
      SetBalance(child, cb, p, LeftRotated(t));
      Here(Left(child, cb, t.right.right, p), l);
      SetBalance(n, b, Left(child, cb, t.right.right, p), l);
    }

    // ---------- Insertion ----------

    /** The new node goes below `cur`, at the end of `p`. */
    method Attach(entry: Node, cur: Node?, right: bool, ghost p: Path)
      requires Shaped() && tree == Plug(p, Leaf) && entry !in Set(tree)
      requires cur == ParentOf(p) && (right ==> !p.Left?) && (!right ==> !p.Right?)
      requires entry.left == null && entry.right == null
      modifies this, Set(tree), entry
      ensures Shaped() && tree == Plug(p, Fork(Leaf, entry, entry.balance, Leaf))
      ensures Set(tree) == old(Set(tree)) + {entry} && entry.balance == old(entry.balance)
    {
      ghost var m := Set(tree) + {entry};
      ghost var f := Memory(Set(tree));
      ghost var b := entry.balance;
      AttachFacts(p, entry, b, f);
      hide Linked, LinkedPath, Plug, PathSet, Set, RootOf;
      entry.parent := cur;
      if cur == null {
        root := entry;
      } else if right {
        cur.right := entry;
      } else {
        cur.left := entry;
      }
      tree := Plug(p, Fork(Leaf, entry, b, Leaf));
      Attached(p, entry, b, f, Memory(m));
    }

    /** `tree_add`: a node equal to others goes before them. */
    method TreeAdd(entry: Node) returns (ghost p: Path)
      requires Shaped() && entry !in Set(tree)
      modifies this, Set(tree), entry
      ensures old(tree) == Plug(p, Leaf) && entry.balance == old(entry.balance)
      ensures Shaped() && tree == Plug(p, Fork(Leaf, entry, entry.balance, Leaf))
      ensures Set(tree) == old(Set(tree)) + {entry}
      ensures Ordered(Nodes(old(tree))) ==> Fits(p, entry.key, false)
    {
      var right := false;
      var next, cur := root, null;
      p := Top;
      ghost var t := tree;
      entry.left, entry.right, entry.parent := null, null, null;
      while next != null
        invariant Shaped() && tree == old(tree) == Plug(p, t) && Set(tree) == old(Set(tree))
        invariant next == RootOf(t) && cur == ParentOf(p) && (right ==> !p.Left?) && (!right ==> !p.Right?)
        invariant Ordered(Nodes(tree)) ==> Fits(p, entry.key, false)
        invariant entry.left == null == entry.right && entry.balance == old(entry.balance)
        decreases t
      {
        hide Linked, Ordered, Fits, Plug;
        Here(p, t);
        if Ordered(Nodes(tree)) { Descend(p, t, entry.key, false); }
        cur := next;
        right := entry.key > next.key;
        if right {
          p, t := Right(t.left, t.node, t.balance, p), t.right;
        } else {
          p, t := Left(t.node, t.balance, t.right, p), t.left;
        }
        next := if right then next.right else next.left;
      }
      Attach(entry, cur, right, p);
    }

    /** `avl_add`: puts exactly this node in, behind the smaller ones and before the equal and greater ones. */
    method Add(entry: Node)
      requires Valid() && entry !in Set(tree)
      modifies this, Set(tree), entry
      ensures Valid() && Set(tree) == old(Set(tree)) + {entry}
      ensures InsertedOnce(old(Nodes(tree)), Nodes(tree), entry)
      ensures Ordered(old(Nodes(tree))) ==> Ordered(Nodes(tree)) && InsertedBefore(old(Nodes(tree)), Nodes(tree), entry)
    {
      entry.balance := 0;
      ghost var p := TreeAdd(entry);
      PlugBalanced(p, Leaf);
      FilledHole(p, entry, 0);
      hide Linked, Plug, Ordered, Fits, InsertedOnce, InsertedBefore, Nodes;
      Rebalance(entry, p);
    }

    /** `tree_map`: the same, unless there is an equal node already, which is returned. */
    method TreeMap(entry: Node) returns (r: Node, ghost p: Path)
      requires Shaped() && entry !in Set(tree)
      modifies this, Set(tree), entry
      ensures entry.balance == old(entry.balance)
      ensures r != entry ==>
                && r in Set(tree) && r.key == entry.key
                && Shaped() && tree == old(tree) && root == old(root)
      ensures r == entry ==>
                && old(tree) == Plug(p, Leaf) && (Ordered(Nodes(old(tree))) ==> Fits(p, entry.key, true))
                && Shaped() && tree == Plug(p, Fork(Leaf, entry, entry.balance, Leaf))
                && Set(tree) == old(Set(tree)) + {entry}
    {
      var right := false;
      var next, cur := root, null;
      p := Top;
      ghost var t := tree;
      entry.left, entry.right, entry.parent := null, null, null;
      while next != null
        invariant Shaped() && tree == old(tree) == Plug(p, t) && Set(tree) == old(Set(tree)) && root == old(root)
        invariant next == RootOf(t) && cur == ParentOf(p) && (right ==> !p.Left?) && (!right ==> !p.Right?)
        invariant Ordered(Nodes(tree)) ==> Fits(p, entry.key, true)
        invariant entry.left == null == entry.right && entry.balance == old(entry.balance)
        decreases t
      {
        hide Linked, Ordered, Fits, Plug;
        Here(p, t);
        cur := next;
        if entry.key == next.key { return next, p; }
        if Ordered(Nodes(tree)) { Descend(p, t, entry.key, true); }
        right := entry.key > next.key;
        if right {
          p, t := Right(t.left, t.node, t.balance, p), t.right;
        } else {
          p, t := Left(t.node, t.balance, t.right, p), t.left;
        }
        next := if right then next.right else next.left;
      }
      Attach(entry, cur, right, p);
      return entry, p;
    }

    /** `avl_map`: puts the node in unless an equal one is there. */
    method Map(entry: Node) returns (r: Node)
      requires Valid() && entry !in Set(tree)
      modifies this, Set(tree), entry
      ensures Valid()
      ensures r != entry ==> r in Set(tree) && r.key == entry.key && tree == old(tree) && root == old(root)
      ensures r == entry ==> Set(tree) == old(Set(tree)) + {entry} && InsertedOnce(old(Nodes(tree)), Nodes(tree), entry)
      ensures Ordered(old(Nodes(tree))) ==>
                && Ordered(Nodes(tree))
                && (r == entry <==> forall n :: n in old(Set(tree)) ==> n.key != entry.key)
    {
      entry.balance := 0;
      ghost var p;
      r, p := TreeMap(entry);
      if r != entry { return; }
      PlugBalanced(p, Leaf);
      FilledHole(p, entry, 0);
      if Ordered(Nodes(old(tree))) { FitsStrictly(p, entry.key); }
      hide Linked, Plug, Ordered, Fits, InsertedOnce, Nodes;
      Rebalance(entry, p);
    }

    /** `tree_search`. */
    method Search(key: int) returns (r: Node?)
      requires Shaped()
      ensures r != null ==> r in Set(tree) && r.key == key
      ensures Ordered(Nodes(tree)) ==> (r == null <==> forall n :: n in Set(tree) ==> n.key != key)
    {
      r := root;
      ghost var p, t := Top, tree;
      while r != null
        invariant Shaped() && tree == Plug(p, t) && r == RootOf(t)
        invariant Ordered(Nodes(tree)) ==> Fits(p, key, true)
        decreases t
      {
        hide Linked, Ordered, Fits, Plug;
        Here(p, t);
        if key == r.key { return; }
        if Ordered(Nodes(tree)) { Descend(p, t, key, true); }
        if key > r.key {
          p, t := Right(t.left, t.node, t.balance, p), t.right;
          r := r.right;
        } else {
          p, t := Left(t.node, t.balance, t.right, p), t.left;
          r := r.left;
        }
      }
      if Ordered(Nodes(tree)) { FitsStrictly(p, key); }
    }

    /** `tree_min` of the subtree `t`: the node at the end of its left spine. */
    method TreeMin(x: Node, ghost p: Path, ghost t: Tree) returns (m: Node, ghost s: Path, ghost u: Tree)
      requires Shaped() && tree == Plug(p, t) && RootOf(t) == x
      ensures Shaped() && Plug(s, u) == t && LeftSpine(s) && u.Fork? && u.left == Leaf && u.node == m
      ensures Nodes(t) != [] && m == Nodes(t)[0]
    {
      m, s, u := x, Top, t;
      Here(p, t);
      while m.left != null
        invariant Shaped() && Plug(s, u) == t && LeftSpine(s) && u.Fork? && u.node == m && m.left == RootOf(u.left)
        decreases u
      {
        hide Linked, Plug;
        s, u := Left(m, u.balance, u.right, s), u.left;
        PlugOver(s, p, u);
        Here(Over(s, p), u);
        m := m.left;
      }
      SuccessorFirst(s, u);
    }

    /** `tree_successor`: the next node in order. */
    method Successor(x: Node, ghost p: Path, ghost t: Tree) returns (r: Node?, ghost s: Path, ghost u: Tree)
      requires Shaped() && tree == Plug(p, t) && RootOf(t) == x
      ensures Shaped() && r == First(Nodes(t.right) + After(p))
      ensures t.right != Leaf ==> Plug(s, u) == t.right && LeftSpine(s) && u.Fork? && u.left == Leaf && u.node == r
    {
      Here(p, t);
      s, u := Top, Leaf;
      if x.right != null {
        r, s, u := TreeMin(x.right, Right(t.left, x, t.balance, p), t.right);
        SpineFirst(s, u);
        return;
      }
      var n := x;
      r := x.parent;
      ghost var q, v := p, t;
      while r != null && n == r.right
        invariant Shaped() && tree == Plug(q, v) && v.Fork? && v.node == n && r == ParentOf(q) && After(q) == After(p)
        decreases q
      {
        hide Linked, Plug;
        Here(q, v);
        v := Fork(q.left, q.node, q.balance, v);
        q := q.up;
        Here(q, v);
        n := r;
        r := r.parent;
      }
      Here(q, v);
      assert Nodes(t.right) == [] && [] + After(p) == After(q);
    }

    /** The same for any node of the tree, in terms of the order. */
    method Next(x: Node) returns (r: Node?)
      requires Shaped() && x in Set(tree)
      ensures exists i :: 0 <= i < |Nodes(tree)| && Nodes(tree)[i] == x && r == First(Nodes(tree)[i + 1..])
    {
      ghost var p, t := Find(tree, x);
      ghost var q, u;
      r, q, u := Successor(x, p, t);
      FollowedBy(p, t);
    }

    // ---------- Deletion ----------

    /** The first case of `avl_del`: without a right child. */
    method RemoveRightless(entry: Node, ghost p: Path, ghost t: Tree) returns (right: bool)
      requires Shaped() && tree == Plug(p, t) && t.Fork? && t.node == entry && t.right == Leaf
      modifies this, Set(tree)
      ensures Shaped() && tree == Plug(p, t.left) && Set(tree) == old(Set(tree)) - {entry}
      ensures entry.parent == ParentOf(p) && (p != Top ==> right == p.Right?)
    {
      hide Linked, Plug, Set, ParentOf, RootOf, Nodes, SplicedOut, PathSet;
      ghost var f := Memory(Set(tree));
      SpliceFacts(p, t, f);
      Here(p, t);
      right := RemoveCells(entry, Set(tree), p.Left?);
      tree := Plug(p, t.left);
      Spliced(p, t, f, Memory(Set(tree)));
    }

    /** What that changes among the nodes `all` of the tree; `side` tells on which side of its parent `entry` is. */
    method RemoveCells(entry: Node, ghost all: set<Node>, ghost side: bool) returns (right: bool)
      requires entry in all && entry.parent != entry
      requires entry.left != null ==> entry.left in all && entry.left != entry && entry.left != entry.parent
      requires entry.parent != null ==> entry.parent in all && (entry.parent.right == entry <==> !side)
      modifies this`root, all
      ensures root == if entry.parent == null then entry.left else old(root)
      ensures Contents(entry) == old(Contents(entry)) && (entry.parent != null ==> right == !side)
      ensures SplicedOut(all - {entry}, entry.left, entry.parent, side, old(Memory(all)), Memory(all - {entry}))
    {
      right := false;
      if entry.left != null { entry.left.parent := entry.parent; }
      if entry.parent == null {
        root := entry.left;
      } else {
        right := entry == entry.parent.right;
        if right { entry.parent.right := entry.left; } else { entry.parent.left := entry.left; }
      }
    }

    /** In the third case the successor is first taken out from where it is. */
    method UnlinkSuccessor(succ: Node, ghost p: Path, ghost t: Tree) returns (parent: Node)
      requires Shaped() && tree == Plug(p, t) && t.Fork? && t.node == succ && t.left == Leaf && p.Left?
      modifies this, Set(tree)
      ensures Shaped() && tree == Plug(p, t.right) && Set(tree) == old(Set(tree)) - {succ}
      ensures parent == p.node && parent in Set(tree)
    {
      hide Linked, Plug, Set, ParentOf, RootOf, Nodes, SplicedOut, PathSet;
      ghost var f := Memory(Set(tree));
      SpliceFacts(p, t, f);
      Here(p, t);
      parent := UnlinkCells(succ, Set(tree));
      tree := Plug(p, t.right);
      Spliced(p, t, f, Memory(Set(tree)));
    }

    /** What that changes among the nodes `all` of the tree. */
    method UnlinkCells(succ: Node, ghost all: set<Node>) returns (parent: Node)
      requires succ in all && succ.parent != null && succ.parent in all && succ.parent != succ
      requires succ.right != null ==> succ.right in all && succ.right != succ && succ.right != succ.parent
      modifies all
      ensures parent == succ.parent && Contents(succ) == old(Contents(succ))
      ensures SplicedOut(all - {succ}, succ.right, succ.parent, true, old(Memory(all)), Memory(all - {succ}))
    {
      if succ.right != null { succ.right.parent := succ.parent; }
      succ.parent.left := succ.right;
      parent := succ.parent;
    }

    /** Then it takes the place of the entry; the entry's left child is not checked for null. */
    method TakePlace(entry: Node, succ: Node, ghost p: Path, ghost t: Tree)
      requires Shaped() && tree == Plug(p, t) && t.Fork? && t.node == entry && t.left.Fork? && t.right.Fork?
      requires succ !in Set(tree)
      modifies this, Set(tree), succ
      ensures Shaped() && tree == Plug(p, Fork(t.left, succ, t.balance, t.right))
      ensures Set(tree) == old(Set(tree)) - {entry} + {succ}
    {
      ghost var f, m := Memory(Set(tree)), Set(tree) - {entry};
      ghost var q, side := ParentOf(p), p.Left?;
      ReplaceNodes(p, t, succ, f);
      Here(p, t);
      ghost var y, z := entry.left, entry.right;
      hide Linked, LinkedPath, Plug, Set, PathSet, ParentOf, RootOf, Replaced, Apart;
      TakePlaceLinks(entry, succ);
      tree := Plug(p, Fork(t.left, succ, t.balance, t.right));
      ghost var g := Memory(m + {succ});
      assert g[y] == f[y].(parent := succ) && g[z] == f[z].(parent := succ);
      assert q != null ==> g[q] == if side then f[q].(left := succ) else f[q].(right := succ);
      ReplacedFlat(m, succ, y, z, q, side, f, g);
      TookPlace(p, t, succ, f, g);
    }

    method TakePlaceLinks(entry: Node, succ: Node)
      requires entry.left != null && entry.right != null && entry.left != entry.right
      requires entry != entry.left && entry != entry.right && entry != entry.parent
      requires succ !in {entry, entry.left, entry.right, entry.parent}
      requires entry.parent != entry.left && entry.parent != entry.right
      modifies this`root, succ, entry.left, entry.right, if entry.parent == null then {} else {entry.parent}
      ensures root == if entry.parent == null then succ else old(root)
      ensures Contents(entry) == Contents(succ) == old(Contents(entry))
      ensures Contents(entry.left) == old(Contents(entry.left)).(parent := succ)
      ensures Contents(entry.right) == old(Contents(entry.right)).(parent := succ)
      ensures entry.parent != null ==>
                var c := old(Contents(entry.parent));
                Contents(entry.parent) == if c.right == entry then c.(right := succ) else c.(left := succ)
    {
      succ.left := entry.left;
      entry.left.parent := succ;
      succ.right := entry.right;
      entry.right.parent := succ;
      succ.parent := entry.parent;
      if entry.parent == null {
        root := succ;
      } else if entry == entry.parent.right {
        entry.parent.right := succ;
      } else {
        entry.parent.left := succ;
      }
      succ.balance := entry.balance;
    }

    /** The second case of `avl_del`: the right child, which has no left child, takes the entry's place. */
    method RaiseRight(entry: Node, ghost p: Path, ghost t: Tree) returns (n: Node)
      requires Shaped() && tree == Plug(p, t) && t.Fork? && t.node == entry && t.right.Fork? && t.right.left == Leaf
      modifies this, Set(tree)
      ensures Shaped() && n == t.right.node && tree == Plug(p, Fork(t.left, n, t.balance, t.right.right))
      ensures Set(tree) == old(Set(tree)) - {entry}
    {
      ghost var f := Memory(Set(tree));
      RaiseNodes(p, t, f);
      Here(p, t);
      RightChildHere(p, t);
      hide Linked, LinkedPath, Plug, Set, PathSet, ParentOf, RootOf, Replaced, Apart;
      n := entry.right;
      RaiseCells(entry, n, Set(tree), p.Left?);
      tree := Plug(p, Fork(t.left, n, t.balance, t.right.right));
      Raised(p, t, f, Memory(Set(tree)));
    }

    /** What that changes among the nodes `all` of the tree; `side` tells on which side of its parent `entry` is. */
    method RaiseCells(entry: Node, n: Node, ghost all: set<Node>, ghost side: bool)
      requires entry in all && n in all && entry.right == n && n != entry && entry.parent != entry
      requires entry.left != null ==>
                 entry.left in all && entry.left != entry && entry.left != n && entry.left != entry.parent
      requires entry.parent != null ==>
                 entry.parent in all && entry.parent != n && (entry.parent.right == entry <==> !side)
      modifies this`root, all
      ensures root == if entry.parent == null then n else old(root)
      ensures Replaced(all - {entry, n}, n, entry.left, null, entry.parent, side, old(Memory(all)),
                       Memory(all - {entry}))
      ensures Contents(entry) == old(Contents(entry))
      ensures Contents(n) == Cell(entry.left, old(n.right), entry.parent, entry.balance)
    {
      ghost var f := Memory(all);
      hide Replaced;
      RaiseLinks(entry, n);
      ReplacedFlat(all - {entry, n}, n, entry.left, null, entry.parent, side, f, Memory(all - {entry}));
    }

    method RaiseLinks(entry: Node, n: Node)
      requires entry.right == n && n != entry && n != entry.left && n != entry.parent
      requires entry.left != entry && entry.parent != entry && (entry.left != null ==> entry.left != entry.parent)
      modifies this`root, n, if entry.left == null then {} else {entry.left},
               if entry.parent == null then {} else {entry.parent}
      ensures root == if entry.parent == null then n else old(root)
      ensures Contents(entry) == old(Contents(entry))
      ensures Contents(n) == Cell(entry.left, old(n.right), entry.parent, entry.balance)
      ensures entry.left != null ==> Contents(entry.left) == old(Contents(entry.left)).(parent := n)
      ensures entry.parent != null ==>
                var c := old(Contents(entry.parent));
                Contents(entry.parent) == if c.right == entry then c.(right := n) else c.(left := n)
    {
      n.left := entry.left;
      if entry.left != null { entry.left.parent := n; }
      n.parent := entry.parent;
      if entry.parent == null {
        root := n;
      } else if entry == entry.parent.right {
        entry.parent.right := n;
      } else {
        entry.parent.left := n;
      }
      n.balance := entry.balance;
    }

    /** One turn of the loop of `avl_del`. */
    method Restore(n: Node, right: bool, ghost p: Path, ghost u: Tree) returns (done: bool)
      requires Shaped() && tree == Plug(p, u) && Shrunk(p, u, right) && u.node == n
      modifies this, Set(tree)
      ensures u.Fork? && -1 <= u.balance <= 1
      ensures !right && u.balance == 1 ==> u.right.Fork? && (u.right.balance == -1 ==> u.right.left.Fork?)
      ensures right && u.balance == -1 ==> u.left.Fork? && (u.left.balance == 1 ==> u.left.right.Fork?)
      ensures Shaped() && tree == Plug(p, Restored(u, right).0) && done == Restored(u, right).1 && SameNodes(this)
    {
      ShrunkCanBeRestored(p, u, right);
      hide Shaped, Set, Nodes, Plug, Shrunk, Restored;
      if !right { done := RestoreLeft(n, p, u); } else { done := RestoreRight(n, p, u); }
    }

    /** The left subtree has become lower. */
    method RestoreLeft(n: Node, ghost p: Path, ghost u: Tree) returns (done: bool)
      requires Shaped() && tree == Plug(p, u) && u.Fork? && u.node == n && -1 <= u.balance <= 1
      requires u.balance == 1 ==> u.right.Fork? && (u.right.balance == -1 ==> u.right.left.Fork?)
      modifies this, Set(tree)
      ensures Shaped() && tree == Plug(p, Restored(u, false).0) && done == Restored(u, false).1 && SameNodes(this)
    {
      Here(p, u);
      hide Shaped, Set, Nodes, Plug, RightLeft, SingleLeft;
      SetBalance(n, n.balance + 1, p, u);
      if n.balance == 1 { return true; }
      if n.balance == 2 { done := LowerRight(n, p, u.(balance := 2)); return; }
      return false;
    }

    method RestoreRight(n: Node, ghost p: Path, ghost u: Tree) returns (done: bool)
      requires Shaped() && tree == Plug(p, u) && u.Fork? && u.node == n && -1 <= u.balance <= 1
      requires u.balance == -1 ==> u.left.Fork? && (u.left.balance == 1 ==> u.left.right.Fork?)
      modifies this, Set(tree)
      ensures Shaped() && tree == Plug(p, Restored(u, true).0) && done == Restored(u, true).1 && SameNodes(this)
    {
      Here(p, u);
      hide Shaped, Set, Nodes, Plug, LeftRight, SingleRight;
      SetBalance(n, n.balance - 1, p, u);
      if n.balance == -1 { return true; }
      if n.balance == -2 { done := LowerLeft(n, p, u.(balance := -2)); return; }
      return false;
    }

    /** The rotations of `avl_del` when the right subtree has become too high. */
    method LowerRight(n: Node, ghost p: Path, ghost v: Tree) returns (done: bool)
      requires Shaped() && tree == Plug(p, v) && v.Fork? && v.node == n
      requires v.right.Fork? && (v.right.balance == -1 ==> v.right.left.Fork?)
      modifies this, Set(tree)
      ensures Shaped() && SameNodes(this) && done == (v.right.balance == 0)
      ensures tree == Plug(p, if v.right.balance == -1 then RightLeft(v)
                              else if v.right.balance == 0 then SingleLeft(v, -1, 1) else SingleLeft(v, 0, 0))
    {
      Here(p, v);
      Here(Right(v.left, n, v.balance, p), v.right);
      hide Shaped, Set, Nodes, RightLeft, SingleLeft;
      var child := n.right;
      if child.balance == -1 {
        RotateRightLeft(n, child, p, v);
      } else if child.balance == 0 {
        RotateLeftWith(n, child, -1, 1, p, v);
        return true;
      } else {
        RotateLeftWith(n, child, 0, 0, p, v);
      }
      return false;
    }

    method LowerLeft(n: Node, ghost p: Path, ghost v: Tree) returns (done: bool)
      requires Shaped() && tree == Plug(p, v) && v.Fork? && v.node == n
      requires v.left.Fork? && (v.left.balance == 1 ==> v.left.right.Fork?)
      modifies this, Set(tree)
      ensures Shaped() && SameNodes(this) && done == (v.left.balance == 0)
      ensures tree == Plug(p, if v.left.balance == 1 then LeftRight(v)
                              else if v.left.balance == 0 then SingleRight(v, 1, -1) else SingleRight(v, 0, 0))
    {
      Here(p, v);
      Here(Left(n, v.balance, v.right, p), v.left);
      hide Shaped, Set, Nodes, LeftRight, SingleRight;
      var child := n.left;
      if child.balance == 1 {
        RotateLeftRight(n, child, p, v);
      } else if child.balance == 0 {
        RotateRightWith(n, child, 1, -1, p, v);
        return true;
      } else {
        RotateRightWith(n, child, 0, 0, p, v);
      }
      return false;
    }

    /** The loop of `avl_del`. */
    method Shrink(n0: Node, right0: bool, ghost p0: Path, ghost u0: Tree)
      requires Shaped() && tree == Plug(p0, u0) && Shrunk(p0, u0, right0) && u0.node == n0
      modifies this, Set(tree)
      ensures Valid() && SameNodes(this)
    {
      var n, right := n0, right0;
      ghost var p, u := p0, u0;
      while true
        invariant Shaped() && tree == Plug(p, u) && Shrunk(p, u, right) && u.node == n && SameNodes(this)
        decreases p
      {
        hide Shaped, Shrunk, Set, Nodes, Restored, Balanced, BalancedPath;
        Restores(p, u, right);
        Here(p, u);
        var parent := n.parent;
        var rightNext := parent != null && n == parent.right;
        ghost var v := Restored(u, right).0;
        var done := Restore(n, right, p, u);
        PlugBalanced(p, v);
        if done || parent == null { break; }
        ShrinksUp(p, v);
        u := if p.Left? then Fork(v, p.node, p.balance, p.right) else Fork(p.left, p.node, p.balance, v);
        p, n, right := p.up, parent, rightNext;
      }
    }

    /** The third case: the entry's right child has a left child. */
    method TakeSuccessor(entry: Node, ghost p: Path, ghost t: Tree) returns (n: Node, ghost q: Path, ghost u: Tree)
      requires Valid() && tree == Plug(p, t) && t.Fork? && t.node == entry && t.right.Fork? && t.right.left.Fork?
      modifies this, Set(tree)
      ensures Shaped() && tree == Plug(q, u) && Shrunk(q, u, false) && u.node == n
      ensures Set(tree) == old(Set(tree)) - {entry} && InsertedOnce(Nodes(tree), old(Nodes(tree)), entry)
    {
      var succ; ghost var s, w;
      succ, s, w := Successor(entry, p, t);
      SpineNotEmpty(s, w);
      LeftChildExists(p, t);
      ghost var l, b := t.left, t.balance;
      ghost var path, v := Over(s, Right(l, entry, b, p)), Fork(l, entry, b, Plug(s, w.right));
      SuccessorFacts(p, t, s, w);
      Here(path, w);
      Here(p, t);
      hide *;
      n := UnlinkSuccessor(succ, path, w);
      TakePlace(entry, succ, p, v);
      q, u := Over(s.up, Right(l, succ, b, p)), Fork(w.right, s.node, s.balance, s.right);
    }

    /** `avl_del`: takes exactly this entry out. */
    method Delete(entry: Node)
      requires Valid() && entry in Set(tree)
      modifies this, Set(tree)
      ensures Valid() && Set(tree) == old(Set(tree)) - {entry}
      ensures InsertedOnce(Nodes(tree), old(Nodes(tree)), entry)
      ensures Ordered(old(Nodes(tree))) ==> Ordered(Nodes(tree))
    {
      ghost var p, t := Find(tree, entry);
      ghost var before := Nodes(tree);
      ghost var q, u;
      var n: Node, right: bool;
      Here(p, t);
      if t.right.Fork? { RightChildHere(p, t); }
      hide Linked, Plug, Nodes, InsertedOnce, Ordered;
      if entry.right == null {
        WithoutRight(p, t);
        right := RemoveRightless(entry, p, t);
        if Ordered(before) { RemovalKeepsOrder(Nodes(tree), before, entry); }
        if entry.parent == null { return; }
        n := entry.parent;
        q, u := p.up, if p.Left? then Fork(t.left, n, p.balance, p.right) else Fork(p.left, n, p.balance, t.left);
      } else if entry.right.left == null {
        RightRaised(p, t);
        n := RaiseRight(entry, p, t);
        right := true;
        q, u := p, Fork(t.left, n, t.balance, t.right.right);
      } else {
        n, q, u := TakeSuccessor(entry, p, t);
        right := false;
      }
      if Ordered(before) { RemovalKeepsOrder(Nodes(tree), before, entry); }
      Shrink(n, right, q, u);
    }
  }

  lemma SpineNotEmpty(s: Path, w: Tree)
    requires LeftSpine(s) && w.Fork? && w.left == Leaf && Plug(s, w).Fork? && Plug(s, w).left != Leaf
    ensures s != Top
  {
  }

  lemma {:induction false} PlugForks(s: Path, w: Tree)
    ensures s != Top ==> Plug(s, w).Fork?
  {
    match s
    case Top =>
    case Left(n, b, r, up) => PlugForks(up, Fork(w, n, b, r));
    case Right(l, n, b, up) => PlugForks(up, Fork(l, n, b, w));
  }

  /** What follows a node in order. */
  lemma FollowedBy(p: Path, t: Tree)
    requires t.Fork?
    ensures var s := Nodes(Plug(p, t));
            exists i :: 0 <= i < |s| && s[i] == t.node && s[i + 1..] == Nodes(t.right) + After(p)
  {
    var u, l, r, v := Before(p), Nodes(t.left), Nodes(t.right), After(p);
    PlugNodes(p, t);
    Regroup(u, l, [t.node], r, v);
    At(u + l, t.node, r + v);
  }

  lemma At(b: seq<Node>, x: Node, w: seq<Node>)
    ensures var s := b + [x] + w; s[|b|] == x && s[|b| + 1..] == w
  {
  }

  ghost predicate LeftSpine(s: Path) { s != Top ==> s.Left? && LeftSpine(s.up) }

  ghost function First(s: seq<Node>): Node? { if s == [] then null else s[0] }

  lemma {:induction false} SpineBefore(s: Path)
    requires LeftSpine(s)
    ensures Before(s) == []
  {
    if s != Top { SpineBefore(s.up); }
  }

  lemma SpineFirst(s: Path, u: Tree)
    requires LeftSpine(s) && u.Fork? && u.left == Leaf
    ensures Nodes(Plug(s, u)) != [] && Nodes(Plug(s, u))[0] == u.node
  {
    SpineBefore(s);
    PlugNodes(s, u);
    assert Nodes(u) == [u.node] + Nodes(u.right);
  }

  lemma AttachFacts(p: Path, n: Node, b: Bits3, f: map<Node, Cell>)
    requires Linked(Plug(p, Leaf), null, f) && n !in Set(Plug(p, Leaf))
    ensures Set(Plug(p, Leaf)) == PathSet(p) && n !in PathSet(p)
    ensures Set(Plug(p, Fork(Leaf, n, b, Leaf))) == PathSet(p) + {n}
    ensures RootOf(Plug(p, Fork(Leaf, n, b, Leaf))) == if p == Top then n else RootOf(Plug(p, Leaf))
    ensures p != Top ==> p.node in PathSet(p)
  {
    Split(p, Leaf, f);
    PlugNodes(p, Leaf);
    PlugNodes(p, Fork(Leaf, n, b, Leaf));
    PlugRoot(p, Leaf, Fork(Leaf, n, b, Leaf));
    PathNodes(p, null, f);
  }

  /** What has been attached is linked. */
  lemma Attached(p: Path, n: Node, b: Bits3, f: map<Node, Cell>, g: map<Node, Cell>)
    requires Linked(Plug(p, Leaf), null, f) && n !in PathSet(p)
    requires forall x :: x in PathSet(p) ==> x in f && x in g && (x != ParentOf(p) ==> g[x] == f[x])
    requires p != Top ==> p.node in f && p.node in g &&
                          g[p.node] == if p.Left? then f[p.node].(left := n) else f[p.node].(right := n)
    requires n in g && g[n] == Cell(null, null, ParentOf(p), b)
    ensures Linked(Plug(p, Fork(Leaf, n, b, Leaf)), null, g)
  {
    Split(p, Leaf, f);
    RefilledFlat(p, n, f, g);
    Refill(p, null, n, f, g);
    Split(p, Fork(Leaf, n, b, Leaf), g);
    hide Plug, LinkedPath, Refilled, PathSet;
    assert Linked(Fork(Leaf, n, b, Leaf), ParentOf(p), g) && Set(Fork(Leaf, n, b, Leaf)) == {n};
  }

  /** A key that fits strictly is nowhere in the tree. */
  lemma FitsStrictly(p: Path, key: int)
    requires Fits(p, key, true)
    ensures Fits(p, key, false) && forall n :: n in Set(Plug(p, Leaf)) ==> n.key != key
  {
    assert Nodes(Leaf) == [];
    FitsSides(p, key);
    hide *;
    PlugNodes(p, Leaf);
    SameElements(Plug(p, Leaf));
    InNeither(Before(p), [], After(p), key);
  }

  lemma FitsSides(p: Path, key: int)
    requires Fits(p, key, true)
    ensures Fits(p, key, false)
    ensures (forall n :: n in Before(p) ==> n.key != key) && forall n :: n in After(p) ==> n.key != key
  {
    hide Before, After;
  }

  lemma InNeither(u: seq<Node>, v: seq<Node>, w: seq<Node>, key: int)
    requires forall n :: n in u || n in v || n in w ==> n.key != key
    ensures forall n :: n in u + v + w ==> n.key != key
  {
  }
}
