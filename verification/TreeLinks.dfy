/** Trees with parent pointers (ulib/opt/tree/tree.h, ulib/opt/tree/tree.c): nodes, the shape they make
    up, and what follows from one about the other. */
module TreeLinks {
  /** The three-bit field a node keeps its balance in. */
  newtype Bits3 = x: int | -4 <= x <= 3

  /** What callers compare nodes by: `compare(a, b)` has the sign of `a.key - b.key`. */
  class Node {
    const key: int
    var left: Node?
    var right: Node?
    var parent: Node?
    var balance: Bits3

    constructor (key: int)
      ensures this.key == key
    {
      this.key := key;
    }
  }

  /** The shape of a tree, with the balance each node holds. */
  datatype Tree = Leaf | Fork(left: Tree, node: Node, balance: Bits3, right: Tree)

  /** A tree with a hole: the way from the hole up to the root. */
  datatype Path = Top
    | Left(node: Node, balance: Bits3, right: Tree, up: Path)
    | Right(left: Tree, node: Node, balance: Bits3, up: Path)

  ghost function Set(t: Tree): set<Node> {
    if t == Leaf then {} else Set(t.left) + {t.node} + Set(t.right)
  }

  /** The nodes in order. */
  ghost function Nodes(t: Tree): seq<Node> {
    if t == Leaf then [] else Nodes(t.left) + [t.node] + Nodes(t.right)
  }

  ghost function RootOf(t: Tree): Node? {
    if t == Leaf then null else t.node
  }

  ghost function Plug(p: Path, t: Tree): Tree {
    match p
    case Top => t
    case Left(n, b, r, up) => Plug(up, Fork(t, n, b, r))
    case Right(l, n, b, up) => Plug(up, Fork(l, n, b, t))
  }

  /** The path `q` continued by `p` above it. */
  ghost function Over(q: Path, p: Path): Path {
    match q
    case Top => p
    case Left(n, b, r, up) => Left(n, b, r, Over(up, p))
    case Right(l, n, b, up) => Right(l, n, b, Over(up, p))
  }

  ghost function PathSet(p: Path): set<Node> {
    match p
    case Top => {}
    case Left(n, _, r, up) => {n} + Set(r) + PathSet(up)
    case Right(l, n, _, up) => {n} + Set(l) + PathSet(up)
  }

  /** The nodes before the hole, in order. */
  ghost function Before(p: Path): seq<Node> {
    match p
    case Top => []
    case Left(_, _, _, up) => Before(up)
    case Right(l, n, _, up) => Before(up) + Nodes(l) + [n]
  }

  ghost function After(p: Path): seq<Node> {
    match p
    case Top => []
    case Left(n, _, r, up) => [n] + Nodes(r) + After(up)
    case Right(_, _, _, up) => After(up)
  }

  /** The node above the hole; `top` is what is above the whole. */
  ghost function ParentOf(p: Path, top: Node? := null): Node? {
    if p == Top then top else p.node
  }

  lemma ForkNodes(t: Tree)
    requires t.Fork?
    ensures Nodes(t) == Nodes(t.left) + [t.node] + Nodes(t.right) && Set(t) == Set(t.left) + {t.node} + Set(t.right)
  {
  }

  lemma Regroup(a: seq<Node>, b: seq<Node>, c: seq<Node>, d: seq<Node>, e: seq<Node>)
    ensures a + (b + c + d) + e == a + b + (c + d + e) && a + (b + c + d) + e == (a + b + c) + d + e
    ensures a + (b + c + d) + e == (a + b) + c + (d + e)
  {
  }

  lemma {:induction false} PlugNodes(p: Path, t: Tree)
    ensures Nodes(Plug(p, t)) == Before(p) + Nodes(t) + After(p)
    ensures Set(Plug(p, t)) == Set(t) + PathSet(p)
  {
    match p
    case Top =>
    case Left(n, b, r, up) =>
      PlugNodes(up, Fork(t, n, b, r));
      Regroup(Before(up), Nodes(t), [n], Nodes(r), After(up));
    case Right(l, n, b, up) =>
      PlugNodes(up, Fork(l, n, b, t));
      Regroup(Before(up), Nodes(l), [n], Nodes(t), After(up));
  }

  lemma {:induction false} PlugRoot(p: Path, t: Tree, u: Tree)
    ensures p != Top ==> RootOf(Plug(p, t)) == RootOf(Plug(p, u))
  {
    match p
    case Top =>
    case Left(n, b, r, up) => PlugRoot(up, Fork(t, n, b, r), Fork(u, n, b, r));
    case Right(l, n, b, up) => PlugRoot(up, Fork(l, n, b, t), Fork(l, n, b, u));
  }

  lemma {:induction false} PlugOver(q: Path, p: Path, t: Tree)
    ensures Plug(Over(q, p), t) == Plug(p, Plug(q, t))
    ensures Before(Over(q, p)) == Before(p) + Before(q) && After(Over(q, p)) == After(q) + After(p)
  {
    match q
    case Top =>
    case Left(n, b, r, up) => PlugOver(up, p, Fork(t, n, b, r));
    case Right(l, n, b, up) => PlugOver(up, p, Fork(l, n, b, t));
  }

  lemma {:induction false} SameElements(t: Tree)
    ensures forall n :: n in Nodes(t) ==> n in Set(t)
    ensures forall n :: n in Set(t) ==> n in Nodes(t)
  {
    if t != Leaf {
      SameElements(t.left);
      SameElements(t.right);
    }
  }

  /** Where a node of the tree is. */
  lemma {:induction false} Find(t: Tree, n: Node) returns (p: Path, s: Tree)
    requires n in Set(t)
    ensures s != Leaf && s.node == n && Plug(p, s) == t
  {
    if t.node == n {
      p, s := Top, t;
    } else if n in Set(t.left) {
      var q, u := Find(t.left, n);
      p, s := Over(q, Left(t.node, t.balance, t.right, Top)), u;
      PlugOver(q, Left(t.node, t.balance, t.right, Top), u);
    } else {
      var q, u := Find(t.right, n);
      p, s := Over(q, Right(t.left, t.node, t.balance, Top)), u;
      PlugOver(q, Right(t.left, t.node, t.balance, Top), u);
    }
  }

  // ---------- Order ----------

  ghost predicate Ordered(s: seq<Node>) { forall i, j :: 0 <= i < j < |s| ==> s[i].key <= s[j].key }

  /** `s'` is `s` with `n` put in once. */
  ghost predicate InsertedOnce(s: seq<Node>, s': seq<Node>, n: Node) {
    exists i :: 0 <= i <= |s| && s' == s[..i] + [n] + s[i..]
  }

  /** `n` has been put in behind the smaller keys and before the equal and greater ones. */
  ghost predicate InsertedBefore(s: seq<Node>, s': seq<Node>, n: Node) {
    exists i :: PutAt(s, s', n, i)
  }

  ghost predicate PutAt(s: seq<Node>, s': seq<Node>, n: Node, i: int) {
    && 0 <= i <= |s| && s' == s[..i] + [n] + s[i..]
    && (forall k :: 0 <= k < i ==> s[k].key < n.key) && (forall k :: i <= k < |s| ==> s[k].key >= n.key)
  }

  lemma RemovalKeepsOrder(s: seq<Node>, s': seq<Node>, n: Node)
    requires InsertedOnce(s, s', n) && Ordered(s')
    ensures Ordered(s)
  {
    var k :| 0 <= k <= |s| && s' == s[..k] + [n] + s[k..];
    assert forall i :: 0 <= i < |s| ==> s[i] == s'[if i < k then i else i + 1];
  }

  /** The hole of `p` is where a node with that key belongs; if `strict`, no node has that key. */
  ghost predicate Fits(p: Path, key: int, strict: bool) {
    && (forall n :: n in Before(p) ==> n.key < key)
    && (forall n :: n in After(p) ==> if strict then key < n.key else key <= n.key)
  }

  lemma PutInOrder(u: seq<Node>, n: Node, v: seq<Node>)
    requires Ordered(u + v) && (forall x :: x in u ==> x.key < n.key) && (forall x :: x in v ==> n.key <= x.key)
    ensures Ordered(u + [n] + v)
  {
    var s, s' := u + v, u + [n] + v;
    forall i, j | 0 <= i < j < |s'|
      ensures s'[i].key <= s'[j].key
    {
      assert i < |u| ==> s'[i] == s[i] && s'[i] in u;
      assert i > |u| ==> s'[i] == s[i - 1];
      assert j < |u| ==> s'[j] == s[j];
      assert j > |u| ==> s'[j] == s[j - 1] && s'[j] in v;
    }
  }

  lemma PutIn(u: seq<Node>, n: Node, v: seq<Node>)
    ensures InsertedOnce(u + v, u + [n] + v, n)
  {
    var s := u + v;
    assert s[..|u|] == u && s[|u|..] == v;
  }

  lemma PutBefore(u: seq<Node>, n: Node, v: seq<Node>)
    requires (forall x :: x in u ==> x.key < n.key) && (forall x :: x in v ==> n.key <= x.key)
    ensures InsertedBefore(u + v, u + [n] + v, n)
  {
    var s := u + v;
    assert s[..|u|] == u && s[|u|..] == v;
    assert forall k :: 0 <= k < |u| ==> s[k] in u;
    assert forall k :: |u| <= k < |s| ==> s[k] in v;
    assert PutAt(s, u + [n] + v, n, |u|);
  }

  lemma FilledHole(p: Path, n: Node, b: Bits3)
    ensures InsertedOnce(Nodes(Plug(p, Leaf)), Nodes(Plug(p, Fork(Leaf, n, b, Leaf))), n)
    ensures Fits(p, n.key, false) ==> InsertedBefore(Nodes(Plug(p, Leaf)), Nodes(Plug(p, Fork(Leaf, n, b, Leaf))), n)
    ensures Ordered(Nodes(Plug(p, Leaf))) && Fits(p, n.key, false) ==> Ordered(Nodes(Plug(p, Fork(Leaf, n, b, Leaf))))
  {
    var u, v := Before(p), After(p);
    PlugNodes(p, Leaf);
    PlugNodes(p, Fork(Leaf, n, b, Leaf));
    assert u + Nodes(Leaf) == u && Nodes(Fork(Leaf, n, b, Leaf)) == [n];
    hide Ordered, InsertedOnce, Plug, Nodes, Before, After, InsertedBefore;
    PutIn(u, n, v);
    if Fits(p, n.key, false) { PutBefore(u, n, v); }
    if Ordered(u + v) && Fits(p, n.key, false) { PutInOrder(u, n, v); }
  }

  lemma OrderedAround(u: seq<Node>, l: seq<Node>, n: Node, r: seq<Node>, v: seq<Node>)
    requires Ordered(u + (l + [n] + r) + v)
    ensures (forall x :: x in l ==> x.key <= n.key) && (forall x :: x in r ==> n.key <= x.key)
  {
    var s, k := u + (l + [n] + r) + v, |u| + |l|;
    assert s[k] == n;
    forall i | 0 <= i < |l|
      ensures l[i].key <= n.key
    {
      assert l[i] == s[|u| + i];
    }
    forall i | 0 <= i < |r|
      ensures n.key <= r[i].key
    {
      assert r[i] == s[k + 1 + i];
    }
  }

  /** A step of a search in an ordered tree. */
  lemma Descend(p: Path, t: Tree, key: int, strict: bool)
    requires t.Fork? && Ordered(Nodes(Plug(p, t))) && Fits(p, key, strict)
    ensures t.node.key < key ==> Fits(Right(t.left, t.node, t.balance, p), key, strict)
    ensures key < t.node.key || (key == t.node.key && !strict) ==>
              Fits(Left(t.node, t.balance, t.right, p), key, strict)
  {
    var u, l, r, v := Before(p), Nodes(t.left), Nodes(t.right), After(p);
    PlugNodes(p, t);
    OrderedAround(u, l, t.node, r, v);
    assert Before(Right(t.left, t.node, t.balance, p)) == u + l + [t.node];
    assert After(Left(t.node, t.balance, t.right, p)) == [t.node] + r + v;
    assert Before(Left(t.node, t.balance, t.right, p)) == u && After(Right(t.left, t.node, t.balance, p)) == v;
    hide Ordered, Plug, Nodes, Before, After, Set, PathSet;
    assert forall x :: x in u + l + [t.node] ==> x in u || x in l || x == t.node;
    assert forall x :: x in [t.node] + r + v ==> x in r || x in v || x == t.node;
  }

  // ---------- Pointers ----------

  /** What a node holds. */
  datatype Cell = Cell(left: Node?, right: Node?, parent: Node?, balance: Bits3)

  function Contents(n: Node): Cell
    reads n
  {
    Cell(n.left, n.right, n.parent, n.balance)
  }

  /** What the nodes of `s` hold. */
  ghost function Memory(s: set<Node>): map<Node, Cell>
    reads s
  {
    map n | n in s :: Contents(n)
  }

  /** By memory `f` the nodes of `t` are distinct and make up that tree, its root below `parent`. */
  ghost predicate Linked(t: Tree, parent: Node?, f: map<Node, Cell>) {
    t != Leaf ==>
      && t.node in f && f[t.node] == Cell(RootOf(t.left), RootOf(t.right), parent, t.balance)
      && t.node !in Set(t.left) && t.node !in Set(t.right) && Set(t.left) !! Set(t.right)
      && Linked(t.left, t.node, f) && Linked(t.right, t.node, f)
  }

  /** By memory `f` the nodes of `p` are distinct and make up that path to `x`, from below `top`. */
  ghost predicate LinkedPath(p: Path, x: Node?, f: map<Node, Cell>, top: Node? := null) {
    match p
    case Top => true
    case Left(n, b, r, up) =>
      && n in f && f[n] == Cell(x, RootOf(r), ParentOf(up, top), b)
      && n !in Set(r) && n !in PathSet(up) && Set(r) !! PathSet(up)
      && Linked(r, n, f) && LinkedPath(up, n, f, top)
    case Right(l, n, b, up) =>
      && n in f && f[n] == Cell(RootOf(l), x, ParentOf(up, top), b)
      && n !in Set(l) && n !in PathSet(up) && Set(l) !! PathSet(up)
      && Linked(l, n, f) && LinkedPath(up, n, f, top)
  }

  lemma {:induction false} Split(p: Path, t: Tree, f: map<Node, Cell>, top: Node? := null)
    ensures Linked(Plug(p, t), top, f) <==>
            LinkedPath(p, RootOf(t), f, top) && Linked(t, ParentOf(p, top), f) && Set(t) !! PathSet(p)
  {
    match p
    case Top =>
    case Left(n, b, r, up) => Split(up, Fork(t, n, b, r), f, top);
    case Right(l, n, b, up) => Split(up, Fork(l, n, b, t), f, top);
  }

  lemma RootIn(t: Tree, parent: Node?, f: map<Node, Cell>)
    requires Linked(t, parent, f)
    ensures RootOf(t) != null ==> RootOf(t) in Set(t) && RootOf(t) in f && f[RootOf(t)].parent == parent
  {
  }

  /** What a parent's link to `x` looks like. */
  lemma PathNodes(p: Path, x: Node?, f: map<Node, Cell>)
    requires LinkedPath(p, x, f)
    ensures ParentOf(p) != null ==> ParentOf(p) in PathSet(p) && ParentOf(p) in f
    ensures ParentOf(p) == null <==> p == Top
    ensures p.Left? ==> f[p.node].left == x && (f[p.node].right != null ==> f[p.node].right in PathSet(p))
    ensures p.Right? ==> f[p.node].right == x && (f[p.node].left != null ==> f[p.node].left in PathSet(p))
  {
    if p.Left? && p.right != Leaf { assert p.right.node in Set(p.right); }
    if p.Right? && p.left != Leaf { assert p.left.node in Set(p.left); }
  }

  // ---------- Moving subtrees ----------

  /** From `f` to `g`, the tree `t` has been moved from below `before` to below `parent`. */
  ghost predicate Moved(t: Tree, before: Node?, parent: Node?, f: map<Node, Cell>, g: map<Node, Cell>) {
    forall n :: n in Set(t) ==> (n in f && n in g && g[n] ==
      if before != parent && n == RootOf(t) then f[n].(parent := parent) else f[n])
  }

  /** From `f` to `g`, the hole of `p` has been filled by `x`. */
  ghost predicate Refilled(p: Path, x: Node?, f: map<Node, Cell>, g: map<Node, Cell>) {
    forall n :: n in PathSet(p) ==> (n in f && n in g && g[n] ==
      if n == ParentOf(p) then (if p.Left? then f[n].(left := x) else f[n].(right := x)) else f[n])
  }

  lemma RefilledFlat(p: Path, x: Node?, f: map<Node, Cell>, g: map<Node, Cell>)
    requires forall n :: n in PathSet(p) ==> n in f && n in g && (n != ParentOf(p) ==> g[n] == f[n])
    requires p != Top ==> p.node in f && p.node in g &&
                          g[p.node] == if p.Left? then f[p.node].(left := x) else f[p.node].(right := x)
    ensures Refilled(p, x, f, g)
  {
  }

  lemma {:induction false} Unchanged(t: Tree, parent: Node?, f: map<Node, Cell>, g: map<Node, Cell>)
    requires Linked(t, parent, f) && forall n :: n in Set(t) ==> n in f && n in g && g[n] == f[n]
    ensures Linked(t, parent, g)
  {
    if t != Leaf {
      Unchanged(t.left, t.node, f, g);
      Unchanged(t.right, t.node, f, g);
    }
  }

  lemma {:induction false} UnchangedPath(p: Path, x: Node?, f: map<Node, Cell>, g: map<Node, Cell>, top: Node? := null)
    requires LinkedPath(p, x, f, top) && forall n :: n in PathSet(p) ==> n in f && n in g && g[n] == f[n]
    ensures LinkedPath(p, x, g, top)
  {
    match p
    case Top =>
    case Left(n, _, r, up) => Unchanged(r, n, f, g); UnchangedPath(up, n, f, g, top);
    case Right(l, n, _, up) => Unchanged(l, n, f, g); UnchangedPath(up, n, f, g, top);
  }

  lemma Move(t: Tree, before: Node?, parent: Node?, f: map<Node, Cell>, g: map<Node, Cell>)
    requires Linked(t, before, f) && Moved(t, before, parent, f, g)
    ensures Linked(t, parent, g)
  {
    if t != Leaf {
      Unchanged(t.left, t.node, f, g);
      Unchanged(t.right, t.node, f, g);
    }
  }

  lemma Refill(p: Path, before: Node?, x: Node?, f: map<Node, Cell>, g: map<Node, Cell>, top: Node? := null)
    requires LinkedPath(p, before, f, top) && Refilled(p, x, f, g)
    ensures LinkedPath(p, x, g, top)
  {
    match p
    case Top =>
    case Left(n, _, r, up) => Unchanged(r, n, f, g); UnchangedPath(up, n, f, g, top);
    case Right(l, n, _, up) => Unchanged(l, n, f, g); UnchangedPath(up, n, f, g, top);
  }

  // ---------- Rotations ----------

  ghost function LeftRotated(t: Tree): Tree
    requires t.Fork? && t.right.Fork?
  {
    Fork(Fork(t.left, t.node, t.balance, t.right.left), t.right.node, t.right.balance, t.right.right)
  }

  ghost function RightRotated(t: Tree): Tree
    requires t.Fork? && t.left.Fork?
  {
    Fork(t.left.left, t.left.node, t.left.balance, Fork(t.left.right, t.node, t.balance, t.right))
  }

  lemma Shift(l: seq<Node>, x: Node, b: seq<Node>, y: Node, d: seq<Node>)
    ensures l + [x] + (b + [y] + d) == (l + [x] + b) + [y] + d
  {
  }
}
