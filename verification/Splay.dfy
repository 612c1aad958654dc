/** Splay trees with parent pointers (ulib/opt/tree/tree.c). */
module Splay {
  import opened SplayDepth
  import opened TreeLinks

  /** A path along right links, such as that of the nodes that have turned out too small. */
  ghost predicate Rights(p: Path) { p != Top ==> p.Right? && Rights(p.up) }

  ghost predicate Lefts(p: Path) { p != Top ==> p.Left? && Lefts(p.up) }

  /** The node at the upper end of a path. */
  ghost function TopOf(p: Path): Node? {
    if p == Top then null else if p.up == Top then p.node else TopOf(p.up)
  }

  lemma {:induction false} PlugTop(p: Path, t: Tree)
    ensures RootOf(Plug(p, t)) == if p == Top then RootOf(t) else TopOf(p)
  {
    match p
    case Top =>
    case Left(n, b, r, up) => PlugTop(up, Fork(t, n, b, r));
    case Right(l, n, b, up) => PlugTop(up, Fork(l, n, b, t));
  }

  /** The state of a splay: the tree `h` that is still to be searched, with root `head`, and between it and
      the header `hd` the nodes known to be too small, down to `small`, and those too large, down to `large`.
      The links below `small` and `large` and the one above `head` are stale. */
  ghost predicate Splaying(hd: Node, head: Node?, small: Node, large: Node,
                           h: Tree, lp: Path, rp: Path, f: map<Node, Cell>) {
    && Rights(lp) && Lefts(rp)
    && head == RootOf(h) && small == ParentOf(lp, hd) && large == ParentOf(rp, hd)
    && hd in f && small in f && large in f
    && (head != null ==> head in f && Linked(h, f[head].parent, f))
    && LinkedPath(lp, f[small].right, f, hd) && LinkedPath(rp, f[large].left, f, hd)
    && (lp != Top ==> f[hd].right == TopOf(lp)) && (rp != Top ==> f[hd].left == TopOf(rp))
    && Scattered(hd, h, lp, rp)
  }

  ghost predicate Scattered(hd: Node, h: Tree, lp: Path, rp: Path) {
    && hd !in Set(h) && hd !in PathSet(lp) && hd !in PathSet(rp)
    && Set(h) !! PathSet(lp) && Set(h) !! PathSet(rp) && PathSet(lp) !! PathSet(rp)
  }

  /** `SPLAY_LINK_RIGHT`: the head and its right subtree turn out too large. */
  lemma LinkedRight(hd: Node, head: Node, small: Node, large: Node, h: Tree, lp: Path, rp: Path,
                    f: map<Node, Cell>, g: map<Node, Cell>)
    requires Splaying(hd, head, small, large, h, lp, rp, f) && h.Fork?
    requires f.Keys == g.Keys && large != head
    requires g[head] == f[head].(parent := large) && g[large] == f[large].(left := head)
    requires forall n :: n in f && n != head && n != large ==> g[n] == f[n]
    ensures Splaying(hd, RootOf(h.left), small, head, h.left, lp, Left(head, h.balance, h.right, rp), g)
  {
    LinkedRightParts(hd, head, small, large, h, lp, rp, f, g);
    var up := Left(head, h.balance, h.right, rp);
    assert LinkedPath(up, RootOf(h.left), g, hd);
    hide Linked, LinkedPath;
  }

  lemma LinkedRightParts(hd: Node, head: Node, small: Node, large: Node, h: Tree, lp: Path, rp: Path,
                         f: map<Node, Cell>, g: map<Node, Cell>)
    requires Splaying(hd, head, small, large, h, lp, rp, f) && h.Fork?
    requires f.Keys == g.Keys && large != head
    requires g[head] == f[head].(parent := large) && g[large] == f[large].(left := head)
    requires forall n :: n in f && n != head && n != large ==> g[n] == f[n]
    ensures Linked(h.left, head, g) && Linked(h.right, head, g)
    ensures LinkedPath(lp, f[small].right, g, hd) && LinkedPath(rp, head, g, hd)
    ensures RootOf(h.left) != null ==> RootOf(h.left) in Set(h.left) && g[RootOf(h.left)].parent == head
  {
    var x, l, r := h.node, h.left, h.right;
    RootIn(l, x, f);
    InKeys(l, x, f);
    InKeys(r, x, f);
    PathInKeys(lp, f[small].right, f, hd);
    PathInKeys(rp, f[large].left, f, hd);
    assert large !in Set(h) by { AboveIn(rp, hd); }
    assert large !in PathSet(lp) by { AboveIn(rp, hd); }
    Unchanged(l, x, f, g);
    Unchanged(r, x, f, g);
    UnchangedPath(lp, f[small].right, f, g, hd);
    RefilledFlat(rp, head, f, g);
    Refill(rp, f[large].left, head, f, g, hd);
  }

  lemma AboveIn(p: Path, hd: Node)
    ensures p != Top ==> ParentOf(p, hd) in PathSet(p)
  {
  }

  lemma {:induction false} InKeys(t: Tree, parent: Node?, f: map<Node, Cell>)
    requires Linked(t, parent, f)
    ensures Set(t) <= f.Keys
  {
    if t != Leaf {
      InKeys(t.left, t.node, f);
      InKeys(t.right, t.node, f);
    }
  }

  lemma {:induction false} PathInKeys(p: Path, x: Node?, f: map<Node, Cell>, top: Node?)
    requires LinkedPath(p, x, f, top)
    ensures PathSet(p) <= f.Keys
  {
    match p
    case Top =>
    case Left(n, _, r, up) => InKeys(r, n, f); PathInKeys(up, n, f, top);
    case Right(l, n, _, up) => InKeys(l, n, f); PathInKeys(up, n, f, top);
  }

  /** `SPLAY_LINK_LEFT`: the head and its left subtree turn out too small. */
  lemma LinkedLeft(hd: Node, head: Node, small: Node, large: Node, h: Tree, lp: Path, rp: Path,
                   f: map<Node, Cell>, g: map<Node, Cell>)
    requires Splaying(hd, head, small, large, h, lp, rp, f) && h.Fork?
    requires f.Keys == g.Keys && small != head
    requires g[head] == f[head].(parent := small) && g[small] == f[small].(right := head)
    requires forall n :: n in f && n != head && n != small ==> g[n] == f[n]
    ensures Splaying(hd, RootOf(h.right), head, large, h.right, Right(h.left, head, h.balance, lp), rp, g)
  {
    LinkedLeftParts(hd, head, small, large, h, lp, rp, f, g);
    var up := Right(h.left, head, h.balance, lp);
    assert LinkedPath(up, RootOf(h.right), g, hd);
    hide Linked, LinkedPath;
  }

  lemma LinkedLeftParts(hd: Node, head: Node, small: Node, large: Node, h: Tree, lp: Path, rp: Path,
                        f: map<Node, Cell>, g: map<Node, Cell>)
    requires Splaying(hd, head, small, large, h, lp, rp, f) && h.Fork?
    requires f.Keys == g.Keys && small != head
    requires g[head] == f[head].(parent := small) && g[small] == f[small].(right := head)
    requires forall n :: n in f && n != head && n != small ==> g[n] == f[n]
    ensures Linked(h.left, head, g) && Linked(h.right, head, g)
    ensures LinkedPath(rp, f[large].left, g, hd) && LinkedPath(lp, head, g, hd)
    ensures RootOf(h.right) != null ==> RootOf(h.right) in Set(h.right) && g[RootOf(h.right)].parent == head
  {
    var x, l, r := h.node, h.left, h.right;
    RootIn(r, x, f);
    InKeys(l, x, f);
    InKeys(r, x, f);
    PathInKeys(lp, f[small].right, f, hd);
    PathInKeys(rp, f[large].left, f, hd);
    assert small !in Set(h) by { AboveIn(lp, hd); }
    assert small !in PathSet(rp) by { AboveIn(lp, hd); }
    Unchanged(l, x, f, g);
    Unchanged(r, x, f, g);
    UnchangedPath(rp, f[large].left, f, g, hd);
    RefilledFlat(lp, head, f, g);
    Refill(lp, f[small].right, head, f, g, hd);
  }

  // ---------- Rotations ----------

  /** What a rotation of `x` and `y` below `q` changes; `z` goes from `y` to `x`. */
  ghost predicate Rotated(x: Node, y: Node, z: Node?, q: Node?, rightwards: bool, f: map<Node, Cell>,
                          g: map<Node, Cell>) {
    forall n :: n in f ==> (n in g && g[n] ==
      if n == x then (if rightwards then f[n].(left := z, parent := y) else f[n].(right := z, parent := y))
      else if n == y then (if rightwards then f[n].(right := x, parent := q) else f[n].(left := x, parent := q))
      else if n == z then f[n].(parent := x)
      else f[n])
  }

  /** The tree rotated to the right. */
  lemma RotatedRight(h: Tree, q: Node?, f: map<Node, Cell>, g: map<Node, Cell>)
    requires Linked(h, q, f) && h.Fork? && h.left.Fork?
    requires Rotated(h.node, h.left.node, RootOf(h.left.right), q, true, f, g)
    ensures Linked(RightRotated(h), q, g) && Set(RightRotated(h)) == Set(h)
    ensures Nodes(RightRotated(h)) == Nodes(h)
  {
    var x, y, a, b, d := h.node, h.left.node, h.left.left, h.left.right, h.right;
    InKeys(h, q, f);
    RootIn(a, y, f);
    RootIn(b, y, f);
    RootIn(d, x, f);
    ForkNodes(h);
    ForkNodes(h.left);
    ForkNodes(RightRotated(h));
    ForkNodes(RightRotated(h).right);
    assert g[x] == f[x].(left := RootOf(b), parent := y) && g[y] == f[y].(right := x, parent := q);
    assert Apart3(Set(a), Set(b), Set(d), x, y);
    hide Set, Nodes;
    RotationMoves(a, b, d, x, y, y, x, q, true, f, g);
    Move(a, y, y, f, g);
    Move(b, y, x, f, g);
    Move(d, x, x, f, g);
    Shift(Nodes(a), y, Nodes(b), x, Nodes(d));
  }

  lemma RotatedLeft(h: Tree, q: Node?, f: map<Node, Cell>, g: map<Node, Cell>)
    requires Linked(h, q, f) && h.Fork? && h.right.Fork?
    requires Rotated(h.node, h.right.node, RootOf(h.right.left), q, false, f, g)
    ensures Linked(LeftRotated(h), q, g) && Set(LeftRotated(h)) == Set(h)
    ensures Nodes(LeftRotated(h)) == Nodes(h)
  {
    var x, y, a, b, d := h.node, h.right.node, h.left, h.right.left, h.right.right;
    InKeys(h, q, f);
    RootIn(a, x, f);
    RootIn(b, y, f);
    RootIn(d, y, f);
    ForkNodes(h);
    ForkNodes(h.right);
    ForkNodes(LeftRotated(h));
    ForkNodes(LeftRotated(h).left);
    assert g[x] == f[x].(right := RootOf(b), parent := y) && g[y] == f[y].(left := x, parent := q);
    assert Apart3(Set(a), Set(b), Set(d), x, y);
    hide Set, Nodes;
    RotationMoves(a, b, d, x, y, x, y, q, false, f, g);
    Move(a, x, x, f, g);
    Move(b, y, x, f, g);
    Move(d, y, y, f, g);
    Shift(Nodes(a), x, Nodes(b), y, Nodes(d));
  }

  ghost predicate Apart3(a: set<Node>, b: set<Node>, d: set<Node>, x: Node, y: Node) {
    a !! b && a !! d && b !! d && x !in a && x !in b && x !in d && y !in a && y !in b && y !in d && x != y
  }

  lemma RotationMoves(a: Tree, b: Tree, d: Tree, x: Node, y: Node, ap: Node, dp: Node, q: Node?, rightwards: bool,
                      f: map<Node, Cell>, g: map<Node, Cell>)
    requires Apart3(Set(a), Set(b), Set(d), x, y) && Set(a) <= f.Keys && Set(b) <= f.Keys && Set(d) <= f.Keys
    requires RootOf(b) != null ==> RootOf(b) in Set(b)
    requires Rotated(x, y, RootOf(b), q, rightwards, f, g)
    ensures Moved(a, ap, ap, f, g) && Moved(b, y, x, f, g) && Moved(d, dp, dp, f, g)
  {
    hide Set;
  }

  /** A rotation at the head leaves everything else alone. */
  lemma HeadRotated(hd: Node, head: Node, small: Node, large: Node, h: Tree, lp: Path, rp: Path,
                    h': Tree, f: map<Node, Cell>, g: map<Node, Cell>)
    requires Splaying(hd, head, small, large, h, lp, rp, f) && h.Fork? && h'.Fork?
    requires f.Keys == g.Keys && forall n :: n in f && n !in Set(h) ==> g[n] == f[n]
    requires Set(h') == Set(h) && h'.node in g && Linked(h', g[h'.node].parent, g)
    ensures Splaying(hd, h'.node, small, large, h', lp, rp, g)
  {
    PathInKeys(lp, f[small].right, f, hd);
    PathInKeys(rp, f[large].left, f, hd);
    AboveIn(lp, hd);
    AboveIn(rp, hd);
    hide Set, PathSet, Linked;
    UnchangedPath(lp, f[small].right, f, g, hd);
    UnchangedPath(rp, f[large].left, f, g, hd);
  }

  // ---------- Assembling ----------

  /** `t`, moved from below `before` into the hole of `p`. */
  lemma Hung(p: Path, x: Node?, t: Tree, before: Node?, hd: Node, f: map<Node, Cell>, g: map<Node, Cell>)
    requires LinkedPath(p, x, f, hd) && Linked(t, before, f) && Set(t) !! PathSet(p)
    requires forall n :: n in PathSet(p) ==> n in f && n in g && (n != ParentOf(p) ==> g[n] == f[n])
    requires p != Top ==> p.node in f && p.node in g &&
                          g[p.node] == if p.Left? then f[p.node].(left := RootOf(t)) else f[p.node].(right := RootOf(t))
    requires forall n :: n in Set(t) ==> (n in f && n in g && g[n] ==
                                      if n == RootOf(t) then f[n].(parent := ParentOf(p, hd)) else f[n])
    ensures Linked(Plug(p, t), hd, g)
  {
    RootIn(t, before, f);
    Move(t, before, ParentOf(p, hd), f, g);
    RefilledFlat(p, RootOf(t), f, g);
    Refill(p, x, RootOf(t), f, g, hd);
    Split(p, t, g, hd);
  }

  /** The head between the two trees assembled: they hang from the header, right and left, until they are
      moved below the head. */
  ghost predicate Assembling(hd: Node, head: Node, l: Tree, b: Bits3, r: Tree, f: map<Node, Cell>) {
    && hd in f && head in f && hd != head && f[hd].right == RootOf(l) && f[hd].left == RootOf(r)
    && Linked(l, hd, f) && Linked(r, hd, f)
    && hd !in Set(l) && hd !in Set(r) && head !in Set(l) && head !in Set(r) && Set(l) !! Set(r)
    && f[head].parent == null && f[head].balance == b
  }

  lemma Assembled(hd: Node, head: Node, l: Tree, b: Bits3, r: Tree, f: map<Node, Cell>, g: map<Node, Cell>)
    requires Assembling(hd, head, l, b, r, f) && f.Keys == g.Keys
    requires g[head] == f[head].(left := RootOf(l), right := RootOf(r))
    requires forall n :: n in f && n != head && n != hd ==>
               g[n] == if n == RootOf(l) || n == RootOf(r) then f[n].(parent := head) else f[n]
    ensures Linked(Fork(l, head, b, r), null, g)
  {
    InKeys(l, hd, f);
    InKeys(r, hd, f);
    RootIn(l, hd, f);
    RootIn(r, hd, f);
    assert Moved(l, hd, head, f, g) && Moved(r, hd, head, f, g) by { hide Set; }
    Move(l, hd, head, f, g);
    Move(r, hd, head, f, g);
  }

  // ---------- In place ----------

  /** `SPLAY_LINK_RIGHT`. */
  method LinkRight(head: Node, large: Node, ghost hd: Node, ghost small: Node, ghost h: Tree, ghost lp: Path,
                   ghost rp: Path,
                   ghost m: set<Node>) returns (next: Node?)
    requires Splaying(hd, head, small, large, h, lp, rp, Memory(m))
    modifies head`parent, large`left
    ensures h.Fork? && h.node == head && next == RootOf(h.left)
    ensures Splaying(hd, next, small, head, h.left, lp, Left(head, h.balance, h.right, rp), Memory(m))
  {
    ghost var f := Memory(m);
    assert h.Fork? && f[head].left == RootOf(h.left);
    assert large != head by { AboveIn(rp, hd); }
    LinkedRightKeys(hd, head, small, large, h, lp, rp, f);
    hide Splaying, RootOf;
    large.left := head;
    head.parent := large;
    next := head.left;
    LinkedRight(hd, head, small, large, h, lp, rp, f, Memory(m));
  }

  /** `SPLAY_LINK_LEFT`. */
  method LinkLeft(head: Node, small: Node, ghost hd: Node, ghost large: Node, ghost h: Tree, ghost lp: Path,
                  ghost rp: Path,
                  ghost m: set<Node>) returns (next: Node?)
    requires Splaying(hd, head, small, large, h, lp, rp, Memory(m))
    modifies head`parent, small`right
    ensures h.Fork? && h.node == head && next == RootOf(h.right)
    ensures Splaying(hd, next, head, large, h.right, Right(h.left, head, h.balance, lp), rp, Memory(m))
  {
    ghost var f := Memory(m);
    assert h.Fork? && f[head].right == RootOf(h.right);
    assert small != head by { AboveIn(lp, hd); }
    LinkedRightKeys(hd, head, small, large, h, lp, rp, f);
    hide Splaying, RootOf;
    small.right := head;
    head.parent := small;
    next := head.right;
    LinkedLeft(hd, head, small, large, h, lp, rp, f, Memory(m));
  }

  lemma LinkedRightKeys(hd: Node, head: Node, small: Node, large: Node, h: Tree, lp: Path, rp: Path, f: map<Node, Cell>)
    requires Splaying(hd, head, small, large, h, lp, rp, f)
    ensures head in f && small in f && large in f && hd in f
  {
  }

  /** `SPLAY_ROTATE_RIGHT`: the pointers it sets. */
  method RotateRightLinks(entry: Node, tmp: Node)
    requires entry.left == tmp && tmp != entry && tmp.right != entry && tmp.right != tmp
    modifies entry, tmp, if tmp.right == null then {} else {tmp.right}
    ensures Contents(entry) == old(Contents(entry)).(left := old(tmp.right), parent := tmp)
    ensures Contents(tmp) == old(Contents(tmp)).(right := entry, parent := old(entry.parent))
    ensures old(tmp.right) != null ==> Contents(old(tmp.right)) == old(Contents(tmp.right)).(parent := entry)
  {
    entry.left := tmp.right;
    if tmp.right != null { tmp.right.parent := entry; }
    tmp.right := entry;
    tmp.parent := entry.parent;
    entry.parent := tmp;
  }

  method RotateLeftLinks(entry: Node, tmp: Node)
    requires entry.right == tmp && tmp != entry && tmp.left != entry && tmp.left != tmp
    modifies entry, tmp, if tmp.left == null then {} else {tmp.left}
    ensures Contents(entry) == old(Contents(entry)).(right := old(tmp.left), parent := tmp)
    ensures Contents(tmp) == old(Contents(tmp)).(left := entry, parent := old(entry.parent))
    ensures old(tmp.left) != null ==> Contents(old(tmp.left)) == old(Contents(tmp.left)).(parent := entry)
  {
    entry.right := tmp.left;
    if tmp.left != null { tmp.left.parent := entry; }
    tmp.left := entry;
    tmp.parent := entry.parent;
    entry.parent := tmp;
  }

  /** The nodes a rotation at the head touches. */
  lemma RotationNodes(hd: Node, head: Node, small: Node, large: Node, h: Tree, lp: Path, rp: Path, f: map<Node, Cell>)
    requires Splaying(hd, head, small, large, h, lp, rp, f) && h.Fork?
    ensures head in f && f[head].left == RootOf(h.left) && f[head].right == RootOf(h.right) && head in Set(h)
    ensures Linked(h, f[head].parent, f) && Set(h) <= f.Keys
    ensures h.left.Fork? ==>
              var y, z := h.left.node, RootOf(h.left.right);
              y in f && y != head && y in Set(h) && f[y].right == z
              && z != head && z != y && (z != null ==> z in f && z in Set(h))
    ensures h.right.Fork? ==>
              var y, z := h.right.node, RootOf(h.right.left);
              y in f && y != head && y in Set(h) && f[y].left == z
              && z != head && z != y && (z != null ==> z in f && z in Set(h))
  {
    InKeys(h, f[head].parent, f);
    assert Linked(h.left, head, f) && Linked(h.right, head, f);
    RootIn(h.left, head, f);
    RootIn(h.right, head, f);
    if h.left.Fork? { RootIn(h.left.right, h.left.node, f); }
    if h.right.Fork? { RootIn(h.right.left, h.right.node, f); }
  }

  lemma RotatedFlat(m: set<Node>, x: Node, y: Node, z: Node?, q: Node?, rightwards: bool, f: map<Node, Cell>,
                    g: map<Node, Cell>)
    requires f.Keys == m && g.Keys == m && x != y && x != z && y != z
    requires x in m ==> g[x] == if rightwards then f[x].(left := z, parent := y) else f[x].(right := z, parent := y)
    requires y in m ==> g[y] == if rightwards then f[y].(right := x, parent := q) else f[y].(left := x, parent := q)
    requires z != null && z in m ==> g[z] == f[z].(parent := x)
    requires forall n :: n in m && n != x && n != y && n != z ==> g[n] == f[n]
    ensures Rotated(x, y, z, q, rightwards, f, g)
  {
  }

  /** `SPLAY_ROTATE_RIGHT`. */
  method RotateRight(head: Node, tmp: Node, ghost hd: Node, ghost small: Node, ghost large: Node,
                     ghost h: Tree, ghost lp: Path, ghost rp: Path, ghost m: set<Node>)
    requires Splaying(hd, head, small, large, h, lp, rp, Memory(m)) && h.Fork? && h.left.Fork? && tmp == h.left.node
    modifies m
    ensures Splaying(hd, tmp, small, large, RightRotated(h), lp, rp, Memory(m))
    ensures Nodes(RightRotated(h)) == Nodes(h) && Set(RightRotated(h)) == Set(h)
  {
    ghost var f, z := Memory(m), RootOf(h.left.right);
    RotationNodes(hd, head, small, large, h, lp, rp, f);
    hide Splaying, Rotated, Linked, Set, Nodes, RootOf;
    ghost var q := head.parent;
    RotateRightLinks(head, tmp);
    ghost var g := Memory(m);
    RotatedFlat(m, head, tmp, z, q, true, f, g);
    RotatedRight(h, q, f, g);
    HeadRotated(hd, head, small, large, h, lp, rp, RightRotated(h), f, g);
  }

  /** `SPLAY_ROTATE_LEFT`. */
  method RotateLeft(head: Node, tmp: Node, ghost hd: Node, ghost small: Node, ghost large: Node,
                    ghost h: Tree, ghost lp: Path, ghost rp: Path, ghost m: set<Node>)
    requires Splaying(hd, head, small, large, h, lp, rp, Memory(m)) && h.Fork? && h.right.Fork? && tmp == h.right.node
    modifies m
    ensures Splaying(hd, tmp, small, large, LeftRotated(h), lp, rp, Memory(m))
    ensures Nodes(LeftRotated(h)) == Nodes(h) && Set(LeftRotated(h)) == Set(h)
  {
    ghost var f, z := Memory(m), RootOf(h.right.left);
    RotationNodes(hd, head, small, large, h, lp, rp, f);
    hide Splaying, Rotated, Linked, Set, Nodes, RootOf;
    ghost var q := head.parent;
    RotateLeftLinks(head, tmp);
    ghost var g := Memory(m);
    RotatedFlat(m, head, tmp, z, q, false, f, g);
    RotatedLeft(h, q, f, g);
    HeadRotated(hd, head, small, large, h, lp, rp, LeftRotated(h), f, g);
  }

  /** The head's left subtree hangs below the nodes that are too small, its right one still where it was. */
  ghost predicate HalfAssembled(hd: Node, head: Node, large: Node, l: Tree, b: Bits3, c: Tree, rp: Path,
                                f: map<Node, Cell>) {
    && hd in f && head in f && large in f && hd != head && large == ParentOf(rp, hd) && Lefts(rp)
    && f[hd].right == RootOf(l) && (rp != Top ==> f[hd].left == TopOf(rp))
    && f[head].right == RootOf(c) && f[head].parent == null && f[head].balance == b
    && Linked(l, hd, f) && Linked(c, head, f) && LinkedPath(rp, f[large].left, f, hd)
    && hd !in Set(l) && hd !in Set(c) && hd !in PathSet(rp)
    && head !in Set(l) && head !in Set(c) && head !in PathSet(rp)
    && Set(l) !! Set(c) && Set(l) !! PathSet(rp) && Set(c) !! PathSet(rp)
  }

  /** `RIGHT_PTR(small) = LEFT_PTR(head)` and the link back. */
  lemma HangsSmall(hd: Node, head: Node, small: Node, large: Node, h: Tree, lp: Path, rp: Path,
                   f: map<Node, Cell>, g: map<Node, Cell>)
    requires Splaying(hd, head, small, large, h, lp, rp, f) && h.Fork? && f[head].parent == null
    requires f.Keys == g.Keys && g[small] == f[small].(right := RootOf(h.left))
    requires forall n :: n in f && n != small ==> g[n] == if n == RootOf(h.left) then f[n].(parent := small) else f[n]
    ensures HalfAssembled(hd, head, large, Plug(lp, h.left), h.balance, h.right, rp, g)
  {
    var a, c := h.left, h.right;
    HangingParts(hd, head, small, large, h, lp, rp, f);
    PlugTop(lp, a);
    PlugNodes(lp, a);
    hide Plug, Set, PathSet, Linked, LinkedPath, Rights, Lefts, TopOf, Splaying, Scattered;
    HungSmall(lp, f[small].right, a, head, hd, small, f, g);
    KeptBeside(rp, f[large].left, c, head, hd, small, RootOf(a), f, g);
    hide RootOf, ParentOf;
  }

  /** What a subtree's move does not touch stays as it is. */
  lemma KeptBeside(p: Path, x: Node?, c: Tree, head: Node, hd: Node, y: Node, z: Node?, f: map<Node, Cell>,
                   g: map<Node, Cell>)
    requires LinkedPath(p, x, f, hd) && Linked(c, head, f) && f.Keys == g.Keys
    requires Set(c) <= f.Keys && PathSet(p) <= f.Keys
    requires y !in Set(c) && y !in PathSet(p) && z !in Set(c) && z !in PathSet(p)
    requires forall n :: n in f && n != y && n != z ==> g[n] == f[n]
    ensures LinkedPath(p, x, g, hd) && Linked(c, head, g)
  {
    hide Set, PathSet, Linked, LinkedPath;
    Unchanged(c, head, f, g);
    UnchangedPath(p, x, f, g, hd);
  }

  lemma HungSmall(lp: Path, x: Node?, a: Tree, head: Node, hd: Node, small: Node, f: map<Node, Cell>,
                  g: map<Node, Cell>)
    requires LinkedPath(lp, x, f, hd) && Rights(lp) && Linked(a, head, f) && Set(a) !! PathSet(lp)
    requires small == ParentOf(lp, hd) && small in f && f.Keys == g.Keys && Set(a) <= f.Keys && PathSet(lp) <= f.Keys
    requires hd !in Set(a) && hd !in PathSet(lp) && (RootOf(a) != null ==> RootOf(a) in Set(a))
    requires lp != Top ==> small in PathSet(lp)
    requires g[small] == f[small].(right := RootOf(a))
    requires forall n :: n in f && n != small ==> g[n] == if n == RootOf(a) then f[n].(parent := small) else f[n]
    ensures Linked(Plug(lp, a), hd, g)
  {
    hide Plug, Set, PathSet, Linked, LinkedPath;
    Hung(lp, x, a, head, hd, f, g);
  }

  /** The parts of the head and what is around it do not share nodes. */
  lemma {:induction false} HangingParts(hd: Node, head: Node, small: Node, large: Node, h: Tree, lp: Path, rp: Path,
                                        f: map<Node, Cell>)
    requires Splaying(hd, head, small, large, h, lp, rp, f) && h.Fork?
    ensures head in f && small in f && large in f && hd in f && small == ParentOf(lp, hd) && large == ParentOf(rp, hd)
    ensures LinkedPath(lp, f[small].right, f, hd) && LinkedPath(rp, f[large].left, f, hd) && Rights(lp) && Lefts(rp)
    ensures (lp != Top ==> f[hd].right == TopOf(lp)) && (rp != Top ==> f[hd].left == TopOf(rp))
    ensures hd != head && hd !in Set(h) && hd !in PathSet(lp) && hd !in PathSet(rp)
    ensures Set(h) !! PathSet(lp) && Set(h) !! PathSet(rp) && PathSet(lp) !! PathSet(rp)
    ensures Linked(h.left, head, f) && Linked(h.right, head, f)
    ensures f[head].right == RootOf(h.right) && f[head].balance == h.balance
    ensures Set(h) == Set(h.left) + {head} + Set(h.right) && head !in Set(h.left) && head !in Set(h.right)
    ensures Set(h.left) !! Set(h.right) && small !in Set(h) && small !in PathSet(rp) && head !in PathSet(rp)
    ensures Set(h) <= f.Keys && PathSet(lp) <= f.Keys && PathSet(rp) <= f.Keys
    ensures RootOf(h.left) != null ==> RootOf(h.left) in Set(h.left)
    ensures lp != Top ==> ParentOf(lp, hd) in PathSet(lp)
    ensures rp != Top ==> ParentOf(rp, hd) in PathSet(rp)
  {
    InKeys(h, f[head].parent, f);
    RootIn(h.left, head, f);
    PathInKeys(lp, f[small].right, f, hd);
    PathInKeys(rp, f[large].left, f, hd);
    AboveIn(lp, hd);
    AboveIn(rp, hd);
  }

  /** `LEFT_PTR(large) = RIGHT_PTR(head)` and the link back. */
  lemma HangsLarge(hd: Node, head: Node, large: Node, l: Tree, b: Bits3, c: Tree, rp: Path, f: map<Node, Cell>,
                   g: map<Node, Cell>)
    requires HalfAssembled(hd, head, large, l, b, c, rp, f)
    requires f.Keys == g.Keys && g[large] == f[large].(left := RootOf(c))
    requires forall n :: n in f && n != large ==> g[n] == if n == RootOf(c) then f[n].(parent := large) else f[n]
    ensures Assembling(hd, head, l, b, Plug(rp, c), g)
  {
    InKeys(l, hd, f);
    InKeys(c, head, f);
    RootIn(c, head, f);
    RootIn(l, hd, f);
    PathInKeys(rp, f[large].left, f, hd);
    AboveIn(rp, hd);
    PlugTop(rp, c);
    PlugNodes(rp, c);
    hide Plug, Set, PathSet, Linked, LinkedPath, Lefts, TopOf;
    Hung(rp, f[large].left, c, head, hd, f, g);
    Unchanged(l, hd, f, g);
  }

  method HangSmall(head: Node, hd: Node, small: Node, ghost large: Node, ghost h: Tree, ghost lp: Path, ghost rp: Path,
                   ghost m: set<Node>)
    requires Splaying(hd, head, small, large, h, lp, rp, Memory(m)) && h.Fork? && head.parent == null
    modifies m
    ensures HalfAssembled(hd, head, large, Plug(lp, h.left), h.balance, h.right, rp, Memory(m))
  {
    ghost var f := Memory(m);
    AssemblyNodes(hd, head, small, large, h, lp, rp, f);
    hide Splaying, Plug, HalfAssembled, RootOf;
    small.right := head.left;
    if head.left != null { head.left.parent := small; }
    HangsSmall(hd, head, small, large, h, lp, rp, f, Memory(m));
  }

  method HangLarge(head: Node, ghost hd: Node, large: Node, ghost l: Tree, ghost b: Bits3, ghost c: Tree,
                   ghost rp: Path,
                   ghost m: set<Node>)
    requires HalfAssembled(hd, head, large, l, b, c, rp, Memory(m))
    modifies m
    ensures Assembling(hd, head, l, b, Plug(rp, c), Memory(m))
  {
    ghost var f := Memory(m);
    HalfNodes(hd, head, large, l, b, c, rp, f);
    hide Plug, HalfAssembled, Assembling, RootOf;
    large.left := head.right;
    if head.right != null { head.right.parent := large; }
    HangsLarge(hd, head, large, l, b, c, rp, f, Memory(m));
  }

  method Enclose(head: Node, hd: Node, ghost l: Tree, ghost b: Bits3, ghost r: Tree, ghost m: set<Node>)
    requires Assembling(hd, head, l, b, r, Memory(m))
    modifies m
    ensures Linked(Fork(l, head, b, r), null, Memory(m))
  {
    ghost var f := Memory(m);
    AssemblingNodes(hd, head, l, b, r, f);
    hide Linked, Assembling, RootOf;
    head.left := hd.right;
    if hd.right != null { hd.right.parent := head; }
    head.right := hd.left;
    if hd.left != null { hd.left.parent := head; }
    Assembled(hd, head, l, b, r, f, Memory(m));
  }

  /** `SPLAY_ASSEMBLE`. */
  method Assemble(head: Node, hd: Node, small: Node, large: Node, ghost h: Tree, ghost lp: Path, ghost rp: Path,
                  ghost m: set<Node>)
    requires Splaying(hd, head, small, large, h, lp, rp, Memory(m)) && h.Fork? && head.parent == null
    modifies m
    ensures Linked(Fork(Plug(lp, h.left), head, h.balance, Plug(rp, h.right)), null, Memory(m))
  {
    hide *;
    HangSmall(head, hd, small, large, h, lp, rp, m);
    HangLarge(head, hd, large, Plug(lp, h.left), h.balance, h.right, rp, m);
    Enclose(head, hd, Plug(lp, h.left), h.balance, Plug(rp, h.right), m);
  }

  lemma AssemblyNodes(hd: Node, head: Node, small: Node, large: Node, h: Tree, lp: Path, rp: Path, f: map<Node, Cell>)
    requires Splaying(hd, head, small, large, h, lp, rp, f) && h.Fork?
    ensures head in f && small in f && large in f && hd in f && small != head && f[head].left == RootOf(h.left)
    ensures f[head].left != null ==> f[head].left in f && f[head].left != small && f[head].left != head
  {
    RootIn(h.left, head, f);
    AboveIn(lp, hd);
    InKeys(h, f[head].parent, f);
  }

  lemma HalfNodes(hd: Node, head: Node, large: Node, l: Tree, b: Bits3, c: Tree, rp: Path, f: map<Node, Cell>)
    requires HalfAssembled(hd, head, large, l, b, c, rp, f)
    ensures head in f && large in f && hd in f && large != head && f[head].right == RootOf(c)
    ensures f[head].right != null ==> f[head].right in f && f[head].right != large && f[head].right != head
  {
    RootIn(c, head, f);
    AboveIn(rp, hd);
    InKeys(c, head, f);
  }

  lemma AssemblingNodes(hd: Node, head: Node, l: Tree, b: Bits3, r: Tree, f: map<Node, Cell>)
    requires Assembling(hd, head, l, b, r, f)
    ensures head in f && hd in f && hd != head && f[hd].right == RootOf(l) && f[hd].left == RootOf(r)
    ensures RootOf(l) != null ==> RootOf(l) in f && RootOf(l) != head && RootOf(l) != hd
    ensures RootOf(r) != null ==> RootOf(r) in f && RootOf(r) != head && RootOf(r) != hd
    ensures RootOf(l) != null ==> RootOf(l) != RootOf(r)
  {
    RootIn(l, hd, f);
    RootIn(r, hd, f);
    InKeys(l, hd, f);
    InKeys(r, hd, f);
  }

  // ---------- Order ----------

  /** The parts of a splay in order; in an ordered tree the parts set aside are on either side of the key. */
  ghost predicate InOrder(h: Tree, lp: Path, rp: Path, key: int, s: seq<Node>) {
    && Rights(lp) && Lefts(rp)
    && Before(lp) + Nodes(h) + After(rp) == s
    && (Ordered(s) ==> (forall n :: n in Before(lp) ==> n.key < key) && (forall n :: n in After(rp) ==> key < n.key))
  }

  lemma {:induction false} OneSided(p: Path)
    ensures Rights(p) ==> After(p) == []
    ensures Lefts(p) ==> Before(p) == []
  {
    if p != Top { OneSided(p.up); }
  }

  lemma SetAsideLarge(h: Tree, lp: Path, rp: Path, key: int, s: seq<Node>)
    requires InOrder(h, lp, rp, key, s) && h.Fork? && key < h.node.key
    ensures InOrder(h.left, lp, Left(h.node, h.balance, h.right, rp), key, s)
  {
    var u, l, n, r, v := Before(lp), Nodes(h.left), h.node, Nodes(h.right), After(rp);
    assert Nodes(h) == l + [n] + r && After(Left(n, h.balance, h.right, rp)) == [n] + r + v;
    hide Nodes, Before, After;
    Regroup(u, l, [n], r, v);
    if Ordered(s) {
      OrderedAround(u, l, n, r, v);
      forall x | x in [n] + r + v
        ensures key < x.key
      {
        assert x == n || x in r || x in v;
      }
    }
  }

  lemma SetAsideSmall(h: Tree, lp: Path, rp: Path, key: int, s: seq<Node>)
    requires InOrder(h, lp, rp, key, s) && h.Fork? && h.node.key < key
    ensures InOrder(h.right, Right(h.left, h.node, h.balance, lp), rp, key, s)
  {
    var u, l, n, r, v := Before(lp), Nodes(h.left), h.node, Nodes(h.right), After(rp);
    assert Nodes(h) == l + [n] + r && Before(Right(h.left, n, h.balance, lp)) == u + l + [n];
    hide Nodes, Before, After;
    Regroup(u, l, [n], r, v);
    if Ordered(s) {
      OrderedAround(u, l, n, r, v);
      forall x | x in u + l + [n]
        ensures x.key < key
      {
        assert x == n || x in u || x in l;
      }
    }
  }

  /** Where the search has ended without finding the key, it is not in the tree. */
  lemma NotThere(h: Tree, lp: Path, rp: Path, key: int, s: seq<Node>)
    requires InOrder(h, lp, rp, key, s) && Ordered(s)
    requires h == Leaf || (key < h.node.key && h.left == Leaf) || (h.node.key < key && h.right == Leaf)
    ensures forall n :: n in s ==> n.key != key
  {
    if h == Leaf {
      assert Nodes(h) == [];
    } else {
      var u, l, n, r, v := Before(lp), Nodes(h.left), h.node, Nodes(h.right), After(rp);
      OrderedAround(u, l, n, r, v);
      assert Nodes(h) == l + [n] + r;
      assert h.left == Leaf ==> l == [];
      assert h.right == Leaf ==> r == [];
      hide Nodes, Before, After, Ordered;
      forall x | x in s
        ensures x.key != key
      {
        assert x in u || x in l || x == n || x in r || x in v;
      }
    }
  }

  lemma WithoutEnds(u: seq<Node>, l: seq<Node>, r: seq<Node>, v: seq<Node>)
    ensures u + l + [] == u + l && [] + r + v == r + v
  {
  }

  /** The tree assembled has the same nodes in the same order. */
  lemma AssembledInOrder(h: Tree, lp: Path, rp: Path, key: int, s: seq<Node>)
    requires InOrder(h, lp, rp, key, s) && h.Fork?
    ensures Nodes(Fork(Plug(lp, h.left), h.node, h.balance, Plug(rp, h.right))) == s
  {
    var t := Fork(Plug(lp, h.left), h.node, h.balance, Plug(rp, h.right));
    OneSided(lp);
    OneSided(rp);
    PlugNodes(lp, h.left);
    PlugNodes(rp, h.right);
    ForkNodes(h);
    ForkNodes(t);
    var u, l, n, r, v := Before(lp), Nodes(h.left), h.node, Nodes(h.right), After(rp);
    assert After(lp) == [] && Before(rp) == [];
    hide *;
    WithoutEnds(u, l, r, v);
    Regroup(u, l, [n], r, v);
  }

  // ---------- The tree ----------

  /** Where a splay is: its pointers and the parts of the tree. */
  datatype Place = Place(head: Node?, small: Node, large: Node, ghost h: Tree, ghost lp: Path, ghost rp: Path)

  /** A splay for `key` in the tree of the nodes `s` is at `at`. */
  ghost predicate At(hd: Node, at: Place, key: int, s: seq<Node>, f: map<Node, Cell>) {
    Splaying(hd, at.head, at.small, at.large, at.h, at.lp, at.rp, f) && InOrder(at.h, at.lp, at.rp, key, s)
  }

  /** The nodes of the tree are spread over the parts. */
  ghost predicate Covers(at: Place, all: set<Node>) {
    Set(at.h) + PathSet(at.lp) + PathSet(at.rp) == all
  }

  /** What can be read at the head. */
  lemma AtHead(hd: Node, at: Place, key: int, s: seq<Node>, f: map<Node, Cell>)
    requires At(hd, at, key, s, f) && at.head != null
    ensures at.h.Fork? && at.h.node == at.head && at.head in f
    ensures f[at.head].left == RootOf(at.h.left) && f[at.head].right == RootOf(at.h.right)
    ensures at.small in f && at.large in f
  {
  }

  /** The head turns out too large, and is set aside. */
  method SetLargeAside(hd: Node, at: Place, ghost key: int, ghost s: seq<Node>, ghost all: set<Node>,
                       ghost m: set<Node>)
    returns (next: Place)
    requires At(hd, at, key, s, Memory(m)) && Covers(at, all) && at.head != null && key < at.head.key
    modifies m
    ensures At(hd, next, key, s, Memory(m)) && Covers(next, all) && at.h.Fork? && next.h == at.h.left
    ensures next.lp == at.lp && next.rp == Left(at.h.node, at.h.balance, at.h.right, at.rp)
  {
    AtHead(hd, at, key, s, Memory(m));
    SetAsideLarge(at.h, at.lp, at.rp, key, s);
    ForkNodes(at.h);
    hide Splaying, InOrder, Set;
    var head := LinkRight(at.head, at.large, hd, at.small, at.h, at.lp, at.rp, m);
    next := Place(head, at.small, at.head, at.h.left, at.lp, Left(at.head, at.h.balance, at.h.right, at.rp));
  }

  method SetSmallAside(hd: Node, at: Place, ghost key: int, ghost s: seq<Node>, ghost all: set<Node>,
                       ghost m: set<Node>)
    returns (next: Place)
    requires At(hd, at, key, s, Memory(m)) && Covers(at, all) && at.head != null && at.head.key < key
    modifies m
    ensures At(hd, next, key, s, Memory(m)) && Covers(next, all) && at.h.Fork? && next.h == at.h.right
    ensures next.lp == Right(at.h.left, at.h.node, at.h.balance, at.lp) && next.rp == at.rp
  {
    AtHead(hd, at, key, s, Memory(m));
    SetAsideSmall(at.h, at.lp, at.rp, key, s);
    ForkNodes(at.h);
    hide Splaying, InOrder, Set;
    var head := LinkLeft(at.head, at.small, hd, at.large, at.h, at.lp, at.rp, m);
    next := Place(head, at.head, at.large, at.h.right, Right(at.h.left, at.head, at.h.balance, at.lp), at.rp);
  }

  /** A rotation at the head. */
  method RotateHeadRight(hd: Node, at: Place, tmp: Node, ghost key: int, ghost s: seq<Node>, ghost all: set<Node>,
                         ghost m: set<Node>) returns (next: Place)
    requires At(hd, at, key, s, Memory(m)) && Covers(at, all) && at.h.Fork? && at.h.left.Fork? && tmp == at.h.left.node
    modifies m
    ensures At(hd, next, key, s, Memory(m)) && Covers(next, all) && next.h == RightRotated(at.h) && next.head == tmp
    ensures next.lp == at.lp && next.rp == at.rp
  {
    assert at.head != null;
    hide Splaying, Nodes, Set;
    RotateRight(at.head, tmp, hd, at.small, at.large, at.h, at.lp, at.rp, m);
    next := Place(tmp, at.small, at.large, RightRotated(at.h), at.lp, at.rp);
  }

  method RotateHeadLeft(hd: Node, at: Place, tmp: Node, ghost key: int, ghost s: seq<Node>, ghost all: set<Node>,
                        ghost m: set<Node>) returns (next: Place)
    requires At(hd, at, key, s, Memory(m)) && Covers(at, all)
    requires at.h.Fork? && at.h.right.Fork? && tmp == at.h.right.node
    modifies m
    ensures At(hd, next, key, s, Memory(m)) && Covers(next, all) && next.h == LeftRotated(at.h) && next.head == tmp
    ensures next.lp == at.lp && next.rp == at.rp
  {
    assert at.head != null;
    hide Splaying, Nodes, Set;
    RotateLeft(at.head, tmp, hd, at.small, at.large, at.h, at.lp, at.rp, m);
    next := Place(tmp, at.small, at.large, LeftRotated(at.h), at.lp, at.rp);
  }

  /** What has been set aside of the way of the search has been halved in depth: in a search, and in an insertion. */
  ghost predicate SearchHalves(at: Place, key: int, way: seq<Node>, j: nat) {
    Halving(at.h, at.lp, at.rp, key, way, j) && HalfOrTurned(at.h, at.lp, at.rp, key, j)
  }

  ghost predicate MapHalves(at: Place, key: int, way: seq<Node>, j: nat) {
    Halving(at.h, at.lp, at.rp, key, way, j) && HalfAsLong(at.lp, at.rp, j)
  }

  ghost predicate AllHalved(at: Place, way: seq<Node>) { at.h.Fork? && Halved(way, Result(at)) }

  /** The search stops here without having found the key. */
  ghost predicate Missed(h: Tree, key: int) {
    h == Leaf || (key < h.node.key && h.left == Leaf) || (h.node.key < key && h.right == Leaf)
  }

  /** One turn of the loop of `splay_search`, when the key is less than the head's. */
  method SearchLeft(hd: Node, at: Place, key: int, ghost s: seq<Node>, ghost all: set<Node>, ghost m: set<Node>,
                   ghost way: seq<Node>, ghost j: nat)
    returns (stop: bool, next: Place, ghost j': nat)
    requires At(hd, at, key, s, Memory(m)) && Covers(at, all) && at.head != null && key < at.head.key && m >= all
    requires SearchHalves(at, key, way, j)
    modifies m
    ensures At(hd, next, key, s, Memory(m)) && Covers(next, all) && next.head != null
    ensures stop ==> Missed(next.h, key)
    ensures at.h.Fork? && (!stop ==> next.h == at.h.left || (at.h.left.Fork? && next.h == at.h.left.left))
    ensures if stop then AllHalved(next, way) else SearchHalves(next, key, way, j')
  {
    AtHead(hd, at, key, s, Memory(m));
    hide At, Covers, Halving, HalfOrTurned, Halved, Joined;
    var tmp := at.head.left;
    if tmp == null {
      EndsAtHead(at.h, at.lp, at.rp, key, way, j);
      return true, at, j;
    }
    next := at;
    SearchTurnRight(at.h, at.lp, at.rp, key, way, j);
    j' := if key < tmp.key then j + 2 else j + 1;
    if key < tmp.key {
      next := RotateHeadRight(hd, at, tmp, key, s, all, m);
      AtHead(hd, next, key, s, Memory(m));
      if tmp.left == null {
        SearchEndsRotatedRight(at, key, way, j);
        return true, next, j;
      }
    }
    stop := false;
    next := SetLargeAside(hd, next, key, s, all, m);
    HeadThere(hd, next, key, s, Memory(m));
  }

  method SearchRight(hd: Node, at: Place, key: int, ghost s: seq<Node>, ghost all: set<Node>, ghost m: set<Node>,
                    ghost way: seq<Node>, ghost j: nat)
    returns (stop: bool, next: Place, ghost j': nat)
    requires At(hd, at, key, s, Memory(m)) && Covers(at, all) && at.head != null && key > at.head.key && m >= all
    requires SearchHalves(at, key, way, j)
    modifies m
    ensures At(hd, next, key, s, Memory(m)) && Covers(next, all) && next.head != null
    ensures stop ==> Missed(next.h, key)
    ensures at.h.Fork? && (!stop ==> next.h == at.h.right || (at.h.right.Fork? && next.h == at.h.right.right))
    ensures if stop then AllHalved(next, way) else SearchHalves(next, key, way, j')
  {
    AtHead(hd, at, key, s, Memory(m));
    hide At, Covers, Halving, HalfOrTurned, Halved, Joined;
    var tmp := at.head.right;
    if tmp == null {
      EndsAtHead(at.h, at.lp, at.rp, key, way, j);
      return true, at, j;
    }
    next := at;
    SearchTurnLeft(at.h, at.lp, at.rp, key, way, j);
    j' := if key > tmp.key then j + 2 else j + 1;
    if key > tmp.key {
      next := RotateHeadLeft(hd, at, tmp, key, s, all, m);
      AtHead(hd, next, key, s, Memory(m));
      if tmp.right == null {
        SearchEndsRotatedLeft(at, key, way, j);
        return true, next, j;
      }
    }
    stop := false;
    next := SetSmallAside(hd, next, key, s, all, m);
    HeadThere(hd, next, key, s, Memory(m));
  }

  lemma SearchEndsRotatedRight(at: Place, key: int, way: seq<Node>, j: nat)
    requires SearchHalves(at, key, way, j) && at.h.Fork? && at.h.left.Fork? && at.h.left.left == Leaf
    requires key < at.h.node.key && key < at.h.left.node.key
    ensures Halved(way, Joined(RightRotated(at.h), at.lp, at.rp))
  {
    EndsRotatedRight(at.h, at.lp, at.rp, key, way, j);
    hide Halving, Halved;
  }

  lemma SearchEndsRotatedLeft(at: Place, key: int, way: seq<Node>, j: nat)
    requires SearchHalves(at, key, way, j) && at.h.Fork? && at.h.right.Fork? && at.h.right.right == Leaf
    requires at.h.node.key < key && at.h.right.node.key < key
    ensures Halved(way, Joined(LeftRotated(at.h), at.lp, at.rp))
  {
    EndsRotatedLeft(at.h, at.lp, at.rp, key, way, j);
    hide Halving, Halved;
  }

  lemma HeadThere(hd: Node, at: Place, key: int, s: seq<Node>, f: map<Node, Cell>)
    requires At(hd, at, key, s, f)
    ensures at.head == null <==> at.h == Leaf
  {
  }

  lemma StartsAt(hd: Node, root: Node?, tree: Tree, key: int, f: map<Node, Cell>)
    requires root == RootOf(tree) && Linked(tree, null, f) && hd in f && hd !in Set(tree)
    ensures At(hd, Place(root, hd, hd, tree, Top, Top), key, Nodes(tree), f)
    ensures Covers(Place(root, hd, hd, tree, Top, Top), Set(tree))
  {
    assert [] + Nodes(tree) + [] == Nodes(tree);
    if root != null { RootIn(tree, null, f); }
  }

  /** `PARENT_PTR(head) = NULL`. */
  lemma ParentCleared(hd: Node, head: Node, small: Node, large: Node, h: Tree, lp: Path, rp: Path,
                      f: map<Node, Cell>, g: map<Node, Cell>)
    requires Splaying(hd, head, small, large, h, lp, rp, f)
    requires f.Keys == g.Keys && g[head] == f[head].(parent := null) && forall n :: n in f && n != head ==> g[n] == f[n]
    ensures Splaying(hd, head, small, large, h, lp, rp, g)
  {
    InKeys(h, f[head].parent, f);
    AboveIn(lp, hd);
    AboveIn(rp, hd);
    PathInKeys(lp, f[small].right, f, hd);
    PathInKeys(rp, f[large].left, f, hd);
    assert head in Set(h);
    hide Set, PathSet, Linked, LinkedPath;
    Move(h, f[head].parent, null, f, g);
    UnchangedPath(lp, f[small].right, f, g, hd);
    UnchangedPath(rp, f[large].left, f, g, hd);
  }

  /** The tree a splay ends with. */
  ghost function Result(at: Place): Tree
    requires at.h.Fork?
  {
    Joined(at.h, at.lp, at.rp)
  }

  lemma ResultNodes(hd: Node, at: Place, key: int, s: seq<Node>, all: set<Node>, f: map<Node, Cell>)
    requires At(hd, at, key, s, f) && Covers(at, all) && at.head != null
    ensures at.h.Fork? && at.h.node == at.head && at.head in f
    ensures Nodes(Result(at)) == s && Set(Result(at)) == all && hd !in all
  {
    AssembledInOrder(at.h, at.lp, at.rp, key, s);
    PlugNodes(at.lp, at.h.left);
    PlugNodes(at.rp, at.h.right);
    ForkNodes(at.h);
    ForkNodes(Result(at));
  }

  /** `PARENT_PTR(head) = NULL` and `SPLAY_ASSEMBLE`. */
  method Conclude(hd: Node, at: Place, ghost key: int, ghost s: seq<Node>, ghost all: set<Node>, ghost m: set<Node>)
    requires At(hd, at, key, s, Memory(m)) && Covers(at, all) && at.head != null && all <= m
    modifies m
    ensures at.h.Fork? && at.h.node == at.head && Linked(Result(at), null, Memory(all))
    ensures Nodes(Result(at)) == s && Set(Result(at)) == all
  {
    ResultNodes(hd, at, key, s, all, Memory(m));
    ghost var f := Memory(m);
    hide Splaying, InOrder, Plug, Nodes, Set, Linked;
    at.head.parent := null;
    ParentCleared(hd, at.head, at.small, at.large, at.h, at.lp, at.rp, f, Memory(m));
    Assemble(at.head, hd, at.small, at.large, at.h, at.lp, at.rp, m);
    Unchanged(Result(at), null, Memory(m), Memory(all));
  }

  /** `TREE_ROOT(node); small = large = &node; head = *root`. */
  method NewHeader(root: Node?, ghost tree: Tree, ghost key: int) returns (hd: Node, ghost m: set<Node>)
    requires root == RootOf(tree) && Linked(tree, null, Memory(Set(tree)))
    ensures fresh(hd) && m == Set(tree) + {hd}
    ensures At(hd, Place(root, hd, hd, tree, Top, Top), key, Nodes(tree), Memory(m))
    ensures Covers(Place(root, hd, hd, tree, Top, Top), Set(tree))
  {
    ghost var all, f := Set(tree), Memory(Set(tree));
    hd := new Node(0);
    hd.left, hd.right, hd.parent := null, null, null;
    m := all + {hd};
    hide Linked, Set, Nodes, At, Covers;
    Unchanged(tree, null, f, Memory(m));
    StartsAt(hd, root, tree, key, Memory(m));
  }

  class SplayTree {
    var root: Node?
    ghost var tree: Tree

    ghost predicate Shaped()
      reads this, Set(tree)
    {
      root == RootOf(tree) && Linked(tree, null, Memory(Set(tree)))
    }

    constructor ()
      ensures Shaped() && tree == Leaf
    {
      root := null;
      tree := Leaf;
    }

    /** `splay_search` in a tree that is not empty: the tree keeps its nodes in order, and what is found is its
        root. */
    method Search(key: int) returns (r: Node?)
      requires Shaped() && root != null
      modifies this, Set(tree)
      ensures Shaped() && Nodes(tree) == old(Nodes(tree)) && Set(tree) == old(Set(tree))
      ensures r != null ==> r == root && r.key == key
      ensures Ordered(Nodes(tree)) ==> (r == null <==> forall n :: n in Nodes(tree) ==> n.key != key)
      ensures Halved(old(Way(tree, key)), tree)
    {
      var found, head; ghost var result;
      found, head, result := SearchFrom(root, tree, key);
      hide *;
      root := head;
      tree := result;
      r := if found then head else null;
    }

    /** `splay_map`: the node is put in unless an equal one is there; that, or the new one, becomes the root. */
    method Map(entry: Node) returns (r: Node)
      requires Shaped() && entry !in Set(tree)
      modifies this, Set(tree), entry
      ensures Shaped() && r == root && r.key == entry.key
      ensures r != entry ==> Nodes(tree) == old(Nodes(tree)) && Set(tree) == old(Set(tree))
      ensures r == entry ==> InsertedOnce(old(Nodes(tree)), Nodes(tree), entry) && Set(tree) == old(Set(tree)) + {entry}
      ensures Ordered(old(Nodes(tree))) ==>
                && Ordered(Nodes(tree))
                && (r == entry <==> forall n :: n in old(Nodes(tree)) ==> n.key != entry.key)
      ensures Halved(old(Way(tree, entry.key)), tree)
    {
      hide Halved, Way;
      hide Linked, Set, Nodes, RootOf, Ordered, InsertedOnce;
      ghost var result;
      r, result := MapInto(entry, root, tree);
      root := r;
      tree := result;
    }
  }

  /** The turns of `splay_map` that take two levels at a time. */
  method ZigZig(hd: Node, at: Place, tmp: Node, key: int, ghost s: seq<Node>, ghost all: set<Node>, ghost m: set<Node>,
                ghost way: seq<Node>, ghost j: nat)
    returns (next: Place, ghost j': nat)
    requires At(hd, at, key, s, Memory(m)) && Covers(at, all) && at.head != null && key < at.head.key
    requires MapHalves(at, key, way, j) && at.h.Fork? && at.h.left.Fork? && tmp == at.h.left.node && key < tmp.key
    modifies m
    ensures At(hd, next, key, s, Memory(m)) && Covers(next, all) && Smaller(next.h, at.h)
    ensures Halving(next.h, next.lp, next.rp, key, way, j') && HalfAsLong(next.lp, next.rp, j')
  {
    AtHead(hd, at, key, s, Memory(m));
    MapTurnRight(at.h, at.lp, at.rp, key, way, j);
    hide At, Covers, Halving, HalfAsLong;
    next := RotateHeadRight(hd, at, tmp, key, s, all, m);
    next := SetLargeAside(hd, next, key, s, all, m);
    j' := j + 2;
  }

  method ZagZag(hd: Node, at: Place, tmp: Node, key: int, ghost s: seq<Node>, ghost all: set<Node>, ghost m: set<Node>,
                ghost way: seq<Node>, ghost j: nat)
    returns (next: Place, ghost j': nat)
    requires At(hd, at, key, s, Memory(m)) && Covers(at, all) && at.head != null && key > at.head.key
    requires MapHalves(at, key, way, j) && at.h.Fork? && at.h.right.Fork? && tmp == at.h.right.node && key > tmp.key
    modifies m
    ensures At(hd, next, key, s, Memory(m)) && Covers(next, all) && Smaller(next.h, at.h)
    ensures Halving(next.h, next.lp, next.rp, key, way, j') && HalfAsLong(next.lp, next.rp, j')
  {
    AtHead(hd, at, key, s, Memory(m));
    MapTurnLeft(at.h, at.lp, at.rp, key, way, j);
    hide At, Covers, Halving, HalfAsLong;
    next := RotateHeadLeft(hd, at, tmp, key, s, all, m);
    next := SetSmallAside(hd, next, key, s, all, m);
    j' := j + 2;
  }

  lemma ZigZagHalves(at: Place, key: int, way: seq<Node>, j: nat)
    requires MapHalves(at, key, way, j) && at.h.Fork? && at.h.left.Fork? && at.h.left.node.key <= key < at.h.node.key
    ensures Smaller(at.h.left.right, at.h)
    ensures var rp := Left(at.h.node, at.h.balance, at.h.right, at.rp);
            && Halving(at.h.left, at.lp, rp, key, way, j + 1)
            && (at.h.left.node.key < key ==>
                  var l := at.h.left; var lp := Right(l.left, l.node, l.balance, at.lp);
                  Halving(l.right, lp, rp, key, way, j + 2) && HalfAsLong(lp, rp, j + 2))
  {
    MapTurnRight(at.h, at.lp, at.rp, key, way, j);
    hide Halving, HalfAsLong;
  }

  lemma ZagZigHalves(at: Place, key: int, way: seq<Node>, j: nat)
    requires MapHalves(at, key, way, j) && at.h.Fork? && at.h.right.Fork? && at.h.node.key < key <= at.h.right.node.key
    ensures Smaller(at.h.right.left, at.h)
    ensures var lp := Right(at.h.left, at.h.node, at.h.balance, at.lp);
            && Halving(at.h.right, lp, at.rp, key, way, j + 1)
            && (key < at.h.right.node.key ==>
                  var r := at.h.right; var rp := Left(r.node, r.balance, r.right, at.rp);
                  Halving(r.left, lp, rp, key, way, j + 2) && HalfAsLong(lp, rp, j + 2))
  {
    MapTurnLeft(at.h, at.lp, at.rp, key, way, j);
    hide Halving, HalfAsLong;
  }

  method ZigZag(hd: Node, at: Place, tmp: Node, key: int, ghost s: seq<Node>, ghost all: set<Node>, ghost m: set<Node>,
                ghost way: seq<Node>, ghost j: nat)
    returns (stop: bool, next: Place, ghost j': nat)
    requires At(hd, at, key, s, Memory(m)) && Covers(at, all) && at.head != null && key < at.head.key
    requires MapHalves(at, key, way, j) && at.h.Fork? && at.h.left.Fork? && tmp == at.h.left.node && tmp.key <= key
    modifies m
    ensures At(hd, next, key, s, Memory(m)) && Covers(next, all)
    ensures if stop then next.head != null && next.head.key == key else Smaller(next.h, at.h)
    ensures Halving(next.h, next.lp, next.rp, key, way, j') && (!stop ==> HalfAsLong(next.lp, next.rp, j'))
  {
    hide *;
    AtHead(hd, at, key, s, Memory(m));
    ZigZagHalves(at, key, way, j);
    next := SetLargeAside(hd, at, key, s, all, m);
    HeadIs(hd, next, key, s, Memory(m));
    if key == tmp.key { return true, next, j + 1; }
    next := SetSmallAside(hd, next, key, s, all, m);
    stop, j' := false, j + 2;
  }

  method ZagZig(hd: Node, at: Place, tmp: Node, key: int, ghost s: seq<Node>, ghost all: set<Node>, ghost m: set<Node>,
                ghost way: seq<Node>, ghost j: nat)
    returns (stop: bool, next: Place, ghost j': nat)
    requires At(hd, at, key, s, Memory(m)) && Covers(at, all) && at.head != null && key > at.head.key
    requires MapHalves(at, key, way, j) && at.h.Fork? && at.h.right.Fork? && tmp == at.h.right.node && tmp.key >= key
    modifies m
    ensures At(hd, next, key, s, Memory(m)) && Covers(next, all)
    ensures if stop then next.head != null && next.head.key == key else Smaller(next.h, at.h)
    ensures Halving(next.h, next.lp, next.rp, key, way, j') && (!stop ==> HalfAsLong(next.lp, next.rp, j'))
  {
    hide *;
    AtHead(hd, at, key, s, Memory(m));
    ZagZigHalves(at, key, way, j);
    next := SetSmallAside(hd, at, key, s, all, m);
    HeadIs(hd, next, key, s, Memory(m));
    if key == tmp.key { return true, next, j + 1; }
    next := SetLargeAside(hd, next, key, s, all, m);
    stop, j' := false, j + 2;
  }

  /** One turn of the loop of `splay_map`, when the new key is less than the head's. */
  method MapLeft(hd: Node, at: Place, key: int, ghost s: seq<Node>, ghost all: set<Node>, ghost m: set<Node>,
                 ghost way: seq<Node>, ghost j: nat)
    returns (stop: bool, next: Place, ghost j': nat)
    requires At(hd, at, key, s, Memory(m)) && Covers(at, all) && at.head != null && key < at.head.key
    requires MapHalves(at, key, way, j)
    modifies m
    ensures At(hd, next, key, s, Memory(m)) && Covers(next, all)
    ensures stop ==> next.head == null || next.head.key == key
    ensures !stop ==> at.h.Fork? && Smaller(next.h, at.h)
    ensures Halving(next.h, next.lp, next.rp, key, way, j') && (!stop ==> HalfAsLong(next.lp, next.rp, j'))
  {
    AtHead(hd, at, key, s, Memory(m));
    var tmp := at.head.left;
    hide At, Covers, Halving, HalfAsLong;
    if tmp == null {
      MapTurnRight(at.h, at.lp, at.rp, key, way, j);
      next := SetLargeAside(hd, at, key, s, all, m);
      HeadThere(hd, next, key, s, Memory(m));
      return true, next, j + 1;
    }
    if key < tmp.key {
      next, j' := ZigZig(hd, at, tmp, key, s, all, m, way, j);
      return false, next, j';
    }
    stop, next, j' := ZigZag(hd, at, tmp, key, s, all, m, way, j);
  }

  method MapRight(hd: Node, at: Place, key: int, ghost s: seq<Node>, ghost all: set<Node>, ghost m: set<Node>,
                  ghost way: seq<Node>, ghost j: nat)
    returns (stop: bool, next: Place, ghost j': nat)
    requires At(hd, at, key, s, Memory(m)) && Covers(at, all) && at.head != null && key > at.head.key
    requires MapHalves(at, key, way, j)
    modifies m
    ensures At(hd, next, key, s, Memory(m)) && Covers(next, all)
    ensures stop ==> next.head == null || next.head.key == key
    ensures !stop ==> at.h.Fork? && Smaller(next.h, at.h)
    ensures Halving(next.h, next.lp, next.rp, key, way, j') && (!stop ==> HalfAsLong(next.lp, next.rp, j'))
  {
    AtHead(hd, at, key, s, Memory(m));
    var tmp := at.head.right;
    hide At, Covers, Halving, HalfAsLong;
    if tmp == null {
      MapTurnLeft(at.h, at.lp, at.rp, key, way, j);
      next := SetSmallAside(hd, at, key, s, all, m);
      HeadThere(hd, next, key, s, Memory(m));
      return true, next, j + 1;
    }
    if key > tmp.key {
      next, j' := ZagZag(hd, at, tmp, key, s, all, m, way, j);
      return false, next, j';
    }
    stop, next, j' := ZagZig(hd, at, tmp, key, s, all, m, way, j);
  }

  /** A subtree of a subtree. */
  ghost predicate Smaller(t: Tree, h: Tree)
    requires h.Fork?
  {
    || (h.left.Fork? && (t == h.left.left || t == h.left.right))
    || (h.right.Fork? && (t == h.right.left || t == h.right.right))
  }

  lemma HeadIs(hd: Node, at: Place, key: int, s: seq<Node>, f: map<Node, Cell>)
    requires At(hd, at, key, s, f)
    ensures at.h.Fork? ==> at.head != null && at.head == at.h.node
  {
  }

  /** The loop of `splay_map`. */
  method MapLoop(hd: Node, start: Place, key: int, ghost s: seq<Node>, ghost all: set<Node>, ghost m: set<Node>,
                 ghost way: seq<Node>)
    returns (at: Place, ghost j: nat)
    requires At(hd, start, key, s, Memory(m)) && Covers(start, all) && MapHalves(start, key, way, 0)
    modifies m
    ensures At(hd, at, key, s, Memory(m)) && Covers(at, all)
    ensures at.head != null ==> at.head.key == key
    ensures Halving(at.h, at.lp, at.rp, key, way, j)
  {
    hide At, Covers, Halving, HalfAsLong;
    at, j := start, 0;
    while at.head != null && key - at.head.key != 0
      invariant At(hd, at, key, s, Memory(m)) && Covers(at, all) && MapHalves(at, key, way, j)
      decreases at.h
    {
      var stop;
      if key - at.head.key < 0 {
        stop, at, j := MapLeft(hd, at, key, s, all, m, way, j);
      } else {
        stop, at, j := MapRight(hd, at, key, s, all, m, way, j);
      }
      if stop { return at, j; }
    }
  }

  /** The new node as the head, when there is no other. */
  lemma NewHead(hd: Node, at: Place, entry: Node, s: seq<Node>, all: set<Node>, f: map<Node, Cell>)
    returns (next: Place, s': seq<Node>)
    requires At(hd, at, entry.key, s, f) && Covers(at, all) && at.head == null
    requires entry !in all && entry != hd && entry in f && f[entry].left == null == f[entry].right
    ensures next == Place(entry, at.small, at.large, Fork(Leaf, entry, f[entry].balance, Leaf), at.lp, at.rp)
    ensures At(hd, next, entry.key, s', f) && Covers(next, all + {entry})
    ensures InsertedOnce(s, s', entry) && (Ordered(s) ==> Ordered(s') && forall n :: n in s ==> n.key != entry.key)
  {
    var h := Fork(Leaf, entry, f[entry].balance, Leaf);
    next := Place(entry, at.small, at.large, h, at.lp, at.rp);
    var u, v := Before(at.lp), After(at.rp);
    s' := u + [entry] + v;
    assert Nodes(h) == [entry] && Set(h) == {entry} && Nodes(at.h) == [] && u + [] + v == s;
    PutIn(u, entry, v);
    assert u + v == s;
    if Ordered(s) {
      NotThere(at.h, at.lp, at.rp, entry.key, s);
      PutInOrder(u, entry, v);
    }
    if Ordered(s') { RemovalKeepsOrder(s, s', entry); }
  }

  /** A larger memory does as well. */
  lemma AtMore(hd: Node, at: Place, key: int, s: seq<Node>, f: map<Node, Cell>, g: map<Node, Cell>)
    requires At(hd, at, key, s, f) && forall n :: n in f ==> n in g && g[n] == f[n]
    ensures At(hd, at, key, s, g)
  {
    if at.head != null {
      InKeys(at.h, f[at.head].parent, f);
      Unchanged(at.h, f[at.head].parent, f, g);
    }
    PathInKeys(at.lp, f[at.small].right, f, hd);
    PathInKeys(at.rp, f[at.large].left, f, hd);
    UnchangedPath(at.lp, f[at.small].right, f, g, hd);
    UnchangedPath(at.rp, f[at.large].left, f, g, hd);
  }

  /** All of `splay_map` but the link to the root. */
  method MapInto(entry: Node, root: Node?, ghost tree: Tree) returns (head: Node, ghost result: Tree)
    requires root == RootOf(tree) && Linked(tree, null, Memory(Set(tree))) && entry !in Set(tree)
    modifies Set(tree), entry
    ensures head == RootOf(result) && Linked(result, null, Memory(Set(result))) && head.key == entry.key
    ensures head != entry ==> Nodes(result) == Nodes(tree) && Set(result) == Set(tree)
    ensures head == entry ==> InsertedOnce(Nodes(tree), Nodes(result), entry) && Set(result) == Set(tree) + {entry}
    ensures Ordered(Nodes(tree)) ==>
              && Ordered(Nodes(result))
              && (head == entry <==> forall n :: n in Nodes(tree) ==> n.key != entry.key)
    ensures Halved(Way(tree, entry.key), result)
  {
    ghost var s, all := Nodes(tree), Set(tree);
    var hd; ghost var m;
    entry.left, entry.right, entry.parent := null, null, null;
    hd, m := NewHeader(root, tree, entry.key);
    hide *;
    StartsHalving(root, hd, tree, entry.key);
    var at; ghost var j;
    at, j := MapLoop(hd, Place(root, hd, hd, tree, Top, Top), entry.key, s, all, m, Way(tree, entry.key));
    if at.head == null {
      HeadThere(hd, at, entry.key, s, Memory(m));
      ghost var before := at;
      at := AsHead(hd, at, entry, s, all, m);
      NewHeadHalved(before, at, entry.key, Way(tree, entry.key), j);
    } else {
      AtHead(hd, at, entry.key, s, Memory(m));
      EqualHalved(at, entry.key, Way(tree, entry.key), j);
      Conclude(hd, at, entry.key, s, all, m);
      HeadPresent(at, s, all);
    }
    head, result := at.head, Result(at);
    ResultRoot(at);
  }

  /** `head = new`, and the rest as before. */
  method AsHead(hd: Node, at: Place, entry: Node, ghost s: seq<Node>, ghost all: set<Node>, ghost m: set<Node>)
    returns (next: Place)
    requires At(hd, at, entry.key, s, Memory(m)) && Covers(at, all) && at.head == null && all <= m
    requires entry !in m && entry != hd && entry.left == null == entry.right
    modifies m, entry
    ensures next.head == entry && next.h.Fork? && next.h.node == entry
    ensures next.lp == at.lp && next.rp == at.rp
    ensures Linked(Result(next), null, Memory(all + {entry})) && Set(Result(next)) == all + {entry}
    ensures InsertedOnce(s, Nodes(Result(next)), entry)
    ensures Ordered(s) ==> Ordered(Nodes(Result(next))) && forall n :: n in s ==> n.key != entry.key
  {
    hide Splaying, InOrder, Linked, Plug, Set, Nodes, At, Covers, InsertedOnce, Ordered, Result;
    AtMore(hd, at, entry.key, s, Memory(m), Memory(m + {entry}));
    ghost var there, s' := NewHead(hd, at, entry, s, all, Memory(m + {entry}));
    next := Place(entry, at.small, at.large, there.h, there.lp, there.rp);
    Conclude(hd, next, entry.key, s', all + {entry}, m + {entry});
  }

  lemma NewHeadHalved(at: Place, next: Place, key: int, way: seq<Node>, j: nat)
    requires Halving(at.h, at.lp, at.rp, key, way, j) && at.h == Leaf
    requires next.h.Fork? && next.lp == at.lp && next.rp == at.rp
    ensures Halved(way, Result(next))
  {
    assert Way(Leaf, key) == [];
    EndsHalved(at.h, at.lp, at.rp, key, way, j, next.h);
  }

  lemma EqualHalved(at: Place, key: int, way: seq<Node>, j: nat)
    requires Halving(at.h, at.lp, at.rp, key, way, j) && at.h.Fork? && at.h.node.key == key
    ensures Halved(way, Result(at))
  {
    EndsAtHead(at.h, at.lp, at.rp, key, way, j);
    hide Halving, Halved, Joined;
  }

  lemma HeadPresent(at: Place, s: seq<Node>, all: set<Node>)
    requires at.h.Fork? && Nodes(Result(at)) == s && Set(Result(at)) == all
    ensures at.h.node in s && at.h.node in all
  {
    RootPresent(Result(at));
    SameElements(Result(at));
  }

  /** All of `splay_search` but the link to the root. */
  method SearchFrom(root: Node, ghost tree: Tree, key: int) returns (found: bool, head: Node, ghost result: Tree)
    requires root == RootOf(tree) && Linked(tree, null, Memory(Set(tree)))
    modifies Set(tree)
    ensures Nodes(result) == Nodes(tree) && Set(result) == Set(tree)
    ensures head == RootOf(result) && Linked(result, null, Memory(Set(result)))
    ensures found ==> head.key == key
    ensures Ordered(Nodes(tree)) ==> (!found <==> forall n :: n in Nodes(tree) ==> n.key != key)
    ensures Halved(Way(tree, key), result)
  {
    ghost var s, all := Nodes(tree), Set(tree);
    var hd; ghost var m;
    hd, m := NewHeader(root, tree, key);
    hide *;
    var at;
    StartsHalving(root, hd, tree, key);
    found, at := SearchLoop(hd, Place(root, hd, hd, tree, Top, Top), key, s, all, m, Way(tree, key));
    EndHalved(at, Way(tree, key));
    if Ordered(s) && !found { Absent(hd, at, key, s, Memory(m)); }
    Conclude(hd, at, key, s, all, m);
    head, result := at.head, Result(at);
    ResultRoot(at);
    RootPresent(result);
  }

  lemma EndHalved(at: Place, way: seq<Node>)
    requires AllHalved(at, way)
    ensures at.h.Fork? && Halved(way, Result(at))
  {
  }

  lemma ResultRoot(at: Place)
    requires at.h.Fork?
    ensures Result(at).Fork? && RootOf(Result(at)) == at.h.node
  {
  }

  /** The loop of `splay_search`. */
  method SearchLoop(hd: Node, start: Place, key: int, ghost s: seq<Node>, ghost all: set<Node>, ghost m: set<Node>,
                    ghost way: seq<Node>)
    returns (found: bool, at: Place)
    requires At(hd, start, key, s, Memory(m)) && Covers(start, all) && start.head != null && all <= m
    requires SearchHalves(start, key, way, 0)
    modifies m
    ensures At(hd, at, key, s, Memory(m)) && Covers(at, all) && at.head != null && AllHalved(at, way)
    ensures if found then at.head.key == key else Missed(at.h, key)
  {
    hide *;
    at := start;
    ghost var j := 0;
    var cmp := key - at.head.key;
    while cmp != 0
      invariant At(hd, at, key, s, Memory(m)) && Covers(at, all) && at.head != null && cmp == key - at.head.key
      invariant SearchHalves(at, key, way, j)
      decreases at.h
    {
      var stop;
      if cmp < 0 {
        stop, at, j := SearchLeft(hd, at, key, s, all, m, way, j);
      } else {
        stop, at, j := SearchRight(hd, at, key, s, all, m, way, j);
      }
      if stop { return false, at; }
      cmp := key - at.head.key;
    }
    AtHead(hd, at, key, s, Memory(m));
    FoundHalved(at, key, way, j);
    found := true;
  }

  lemma FoundHalved(at: Place, key: int, way: seq<Node>, j: nat)
    requires SearchHalves(at, key, way, j) && at.h.Fork? && at.h.node.key == key
    ensures AllHalved(at, way)
  {
    EndsAtHead(at.h, at.lp, at.rp, key, way, j);
    hide Halving, Halved, Joined;
  }

  lemma StartsHalving(root: Node?, hd: Node, tree: Tree, key: int)
    ensures SearchHalves(Place(root, hd, hd, tree, Top, Top), key, Way(tree, key), 0)
    ensures MapHalves(Place(root, hd, hd, tree, Top, Top), key, Way(tree, key), 0)
  {
    Starts(tree, key);
    hide Halving;
  }

  lemma Absent(hd: Node, at: Place, key: int, s: seq<Node>, f: map<Node, Cell>)
    requires At(hd, at, key, s, f) && Missed(at.h, key) && Ordered(s)
    ensures forall n :: n in s ==> n.key != key
  {
    NotThere(at.h, at.lp, at.rp, key, s);
  }

  lemma RootPresent(t: Tree)
    ensures t.Fork? ==> t.node in Nodes(t)
  {
  }
}
