/** What a splay does to the depths of the nodes it passes (ulib/opt/tree/tree.c): it halves them. */
module SplayDepth {
  import opened TreeLinks

  /** The nodes met by a search for `key`, from the root on. */
  ghost function Way(t: Tree, key: int): seq<Node> {
    if t == Leaf then []
    else if key == t.node.key then [t.node]
    else [t.node] + Way(if key < t.node.key then t.left else t.right, key)
  }

  /** Node `n` is in the tree, at depth `d` or less. */
  ghost predicate Within(t: Tree, n: Node, d: int) {
    t.Fork? && d >= 0 && (t.node == n || Within(t.left, n, d - 1) || Within(t.right, n, d - 1))
  }

  /** Node `i` of the way, which was at depth `i`, is no deeper than half of that and two. */
  ghost predicate Halved(way: seq<Node>, t: Tree) {
    forall i :: 0 <= i < |way| ==> Within(t, way[i], i / 2 + 2)
  }

  ghost function Length(p: Path): nat {
    if p == Top then 0 else 1 + Length(p.up)
  }

  lemma {:induction false} WithinMore(t: Tree, n: Node, d: int, e: int)
    requires Within(t, n, d) && d <= e
    ensures Within(t, n, e)
  {
    if t.node == n {
    } else if Within(t.left, n, d - 1) {
      WithinMore(t.left, n, d - 1, e - 1);
    } else {
      WithinMore(t.right, n, d - 1, e - 1);
    }
  }

  /** If it is in `t`, node `n` is no deeper in `u`. */
  ghost predicate Keeps(t: Tree, u: Tree, n: Node) {
    forall d :: Within(t, n, d) ==> Within(u, n, d)
  }

  /** What is put into a hole does not move the nodes above it. */
  lemma {:induction false} PlugKeeps(p: Path, t: Tree, u: Tree, n: Node)
    requires Keeps(t, u, n)
    ensures Keeps(Plug(p, t), Plug(p, u), n)
  {
    match p
    case Top =>
    case Left(m, b, r, up) =>
      assert Keeps(Fork(t, m, b, r), Fork(u, m, b, r), n);
      PlugKeeps(up, Fork(t, m, b, r), Fork(u, m, b, r), n);
    case Right(l, m, b, up) =>
      assert Keeps(Fork(l, m, b, t), Fork(l, m, b, u), n);
      PlugKeeps(up, Fork(l, m, b, t), Fork(l, m, b, u), n);
  }

  /** What is put into a hole is as deep below the root as the path is long. */
  lemma {:induction false} PlugDepth(p: Path, t: Tree, n: Node, d: int)
    requires Within(t, n, d)
    ensures Within(Plug(p, t), n, d + Length(p))
  {
    match p
    case Top =>
    case Left(m, b, r, up) => PlugDepth(up, Fork(t, m, b, r), n, d + 1);
    case Right(l, m, b, up) => PlugDepth(up, Fork(l, m, b, t), n, d + 1);
  }

  /** The node has been set aside at depth `d` or less. */
  ghost predicate Aside(lp: Path, rp: Path, n: Node, d: int) {
    Within(Plug(lp, Leaf), n, d) || Within(Plug(rp, Leaf), n, d)
  }

  /** The first `j` nodes of the way have been set aside, at no more than half their depth and one. */
  ghost predicate Halving(h: Tree, lp: Path, rp: Path, key: int, way: seq<Node>, j: nat) {
    && j <= |way| && way[j..] == Way(h, key)
    && forall i :: 0 <= i < j ==> Aside(lp, rp, way[i], i / 2 + 1)
  }

  /** The lengths of the paths, in a splay that goes two levels at a time. */
  ghost predicate HalfAsLong(lp: Path, rp: Path, j: nat) {
    2 * Length(lp) <= j && 2 * Length(rp) <= j
  }

  /** The same where the search has turned round after one level: the path it turned away from may be longer
      by one. */
  ghost predicate HalfOrTurned(h: Tree, lp: Path, rp: Path, key: int, j: nat) {
    && 2 * Length(lp) <= j + (if h == Leaf || key <= h.node.key then 1 else 0)
    && 2 * Length(rp) <= j + (if h == Leaf || h.node.key <= key then 1 else 0)
  }

  lemma Starts(t: Tree, key: int)
    ensures Halving(t, Top, Top, key, Way(t, key), 0)
    ensures HalfAsLong(Top, Top, 0) && HalfOrTurned(t, Top, Top, key, 0)
  {
  }

  lemma AsideOnLargerPaths(lp: Path, rp: Path, t: Tree, n: Node, d: int)
    requires Aside(lp, rp, n, d)
    ensures Within(Plug(lp, t), n, d) || Within(Plug(rp, Leaf), n, d)
    ensures Within(Plug(lp, Leaf), n, d) || Within(Plug(rp, t), n, d)
  {
    PlugKeeps(lp, Leaf, t, n);
    PlugKeeps(rp, Leaf, t, n);
  }

  /** `w` is what the link sets aside on the right: the nodes of the way in it are near its root. */
  lemma RightAside(h: Tree, lp: Path, rp: Path, key: int, way: seq<Node>, j: nat, w: Tree, h': Tree, k: nat)
    requires Halving(h, lp, rp, key, way, j) && w.Fork? && j <= k <= |way| && way[k..] == Way(h', key)
    requires forall i :: j <= i < k ==> Within(Fork(Leaf, w.node, w.balance, w.right), way[i], i / 2 + 1 - Length(rp))
    ensures Halving(h', lp, Left(w.node, w.balance, w.right, rp), key, way, k)
  {
    var u := Fork(Leaf, w.node, w.balance, w.right);
    forall i | 0 <= i < k
      ensures Aside(lp, Left(w.node, w.balance, w.right, rp), way[i], i / 2 + 1)
    {
      if i < j { AsideOnLargerPaths(lp, rp, u, way[i], i / 2 + 1); } else {
        PlugDepth(rp, u, way[i], i / 2 + 1 - Length(rp));
      }
    }
  }

  lemma LeftAside(h: Tree, lp: Path, rp: Path, key: int, way: seq<Node>, j: nat, w: Tree, h': Tree, k: nat)
    requires Halving(h, lp, rp, key, way, j) && w.Fork? && j <= k <= |way| && way[k..] == Way(h', key)
    requires forall i :: j <= i < k ==> Within(Fork(w.left, w.node, w.balance, Leaf), way[i], i / 2 + 1 - Length(lp))
    ensures Halving(h', Right(w.left, w.node, w.balance, lp), rp, key, way, k)
  {
    var u := Fork(w.left, w.node, w.balance, Leaf);
    forall i | 0 <= i < k
      ensures Aside(Right(w.left, w.node, w.balance, lp), rp, way[i], i / 2 + 1)
    {
      if i < j { AsideOnLargerPaths(lp, rp, u, way[i], i / 2 + 1); } else {
        PlugDepth(lp, u, way[i], i / 2 + 1 - Length(lp));
      }
    }
  }

  /** The head is set aside on the right. */
  lemma OneRight(h: Tree, lp: Path, rp: Path, key: int, way: seq<Node>, j: nat)
    requires Halving(h, lp, rp, key, way, j) && h.Fork? && key < h.node.key && 2 * Length(rp) <= j + 1
    ensures Halving(h.left, lp, Left(h.node, h.balance, h.right, rp), key, way, j + 1)
  {
    assert way[j] == way[j..][0] && way[j + 1..] == way[j..][1..];
    RightAside(h, lp, rp, key, way, j, h, h.left, j + 1);
  }

  lemma OneLeft(h: Tree, lp: Path, rp: Path, key: int, way: seq<Node>, j: nat)
    requires Halving(h, lp, rp, key, way, j) && h.Fork? && h.node.key < key && 2 * Length(lp) <= j + 1
    ensures Halving(h.right, Right(h.left, h.node, h.balance, lp), rp, key, way, j + 1)
  {
    assert way[j] == way[j..][0] && way[j + 1..] == way[j..][1..];
    LeftAside(h, lp, rp, key, way, j, h, h.right, j + 1);
  }

  lemma TwoOfWay(h: Tree, key: int, way: seq<Node>, j: nat, x: Node, y: Node, rest: seq<Node>)
    requires j <= |way| && way[j..] == [x, y] + rest
    ensures j + 2 <= |way| && way[j] == x && way[j + 1] == y && way[j + 2..] == rest
  {
    assert way[j] == way[j..][0] && way[j + 1] == way[j..][1] && way[j + 2..] == way[j..][2..];
  }

  /** Rotated first, the head and its child are set aside together. */
  lemma TwoRight(h: Tree, lp: Path, rp: Path, key: int, way: seq<Node>, j: nat)
    requires Halving(h, lp, rp, key, way, j) && h.Fork? && h.left.Fork? && key < h.node.key && key < h.left.node.key
    requires 2 * Length(rp) <= j
    ensures var w := RightRotated(h);
            w.left == h.left.left && Halving(w.left, lp, Left(w.node, w.balance, w.right, rp), key, way, j + 2)
  {
    var w, x, y := RightRotated(h), h.node, h.left.node;
    assert Way(h, key) == [x, y] + Way(h.left.left, key);
    TwoOfWay(h, key, way, j, x, y, Way(h.left.left, key));
    assert Within(w.right, x, 0);
    WithinMore(w.right, x, 0, j / 2 - Length(rp));
    RightAside(h, lp, rp, key, way, j, w, w.left, j + 2);
  }

  lemma TwoLeft(h: Tree, lp: Path, rp: Path, key: int, way: seq<Node>, j: nat)
    requires Halving(h, lp, rp, key, way, j) && h.Fork? && h.right.Fork? && h.node.key < key && h.right.node.key < key
    requires 2 * Length(lp) <= j
    ensures var w := LeftRotated(h);
            w.right == h.right.right && Halving(w.right, Right(w.left, w.node, w.balance, lp), rp, key, way, j + 2)
  {
    var w, x, y := LeftRotated(h), h.node, h.right.node;
    assert Way(h, key) == [x, y] + Way(h.right.right, key);
    TwoOfWay(h, key, way, j, x, y, Way(h.right.right, key));
    assert Within(w.left, x, 0);
    WithinMore(w.left, x, 0, j / 2 - Length(lp));
    LeftAside(h, lp, rp, key, way, j, w, w.right, j + 2);
  }

  // ---------- Turns of the loops ----------

  /** One turn of a search to the left: the head goes to the right, with its child if the search goes on to the
      left of that. */
  lemma SearchTurnRight(h: Tree, lp: Path, rp: Path, key: int, way: seq<Node>, j: nat)
    requires Halving(h, lp, rp, key, way, j) && HalfOrTurned(h, lp, rp, key, j)
    requires h.Fork? && h.left.Fork? && key < h.node.key
    ensures key < h.left.node.key ==>
              var w := RightRotated(h); var rp' := Left(w.node, w.balance, w.right, rp);
              Halving(w.left, lp, rp', key, way, j + 2) && HalfOrTurned(w.left, lp, rp', key, j + 2)
    ensures key >= h.left.node.key ==>
              var rp' := Left(h.node, h.balance, h.right, rp);
              Halving(h.left, lp, rp', key, way, j + 1) && HalfOrTurned(h.left, lp, rp', key, j + 1)
  {
    if key < h.left.node.key { TwoRight(h, lp, rp, key, way, j); } else { OneRight(h, lp, rp, key, way, j); }
    hide Halving;
  }

  lemma SearchTurnLeft(h: Tree, lp: Path, rp: Path, key: int, way: seq<Node>, j: nat)
    requires Halving(h, lp, rp, key, way, j) && HalfOrTurned(h, lp, rp, key, j)
    requires h.Fork? && h.right.Fork? && h.node.key < key
    ensures h.right.node.key < key ==>
              var w := LeftRotated(h); var lp' := Right(w.left, w.node, w.balance, lp);
              Halving(w.right, lp', rp, key, way, j + 2) && HalfOrTurned(w.right, lp', rp, key, j + 2)
    ensures key <= h.right.node.key ==>
              var lp' := Right(h.left, h.node, h.balance, lp);
              Halving(h.right, lp', rp, key, way, j + 1) && HalfOrTurned(h.right, lp', rp, key, j + 1)
  {
    if h.right.node.key < key { TwoLeft(h, lp, rp, key, way, j); } else { OneLeft(h, lp, rp, key, way, j); }
    hide Halving;
  }

  /** One turn of `splay_map` to the left. */
  lemma MapTurnRight(h: Tree, lp: Path, rp: Path, key: int, way: seq<Node>, j: nat)
    requires Halving(h, lp, rp, key, way, j) && HalfAsLong(lp, rp, j) && h.Fork? && key < h.node.key
    ensures Halving(h.left, lp, Left(h.node, h.balance, h.right, rp), key, way, j + 1)
    ensures h.left.Fork? && key < h.left.node.key ==>
              var w := RightRotated(h); var rp' := Left(w.node, w.balance, w.right, rp);
              Halving(w.left, lp, rp', key, way, j + 2) && HalfAsLong(lp, rp', j + 2)
    ensures h.left.Fork? && h.left.node.key < key ==>
              var l := h.left;
              var lp', rp' := Right(l.left, l.node, l.balance, lp), Left(h.node, h.balance, h.right, rp);
              Halving(l.right, lp', rp', key, way, j + 2) && HalfAsLong(lp', rp', j + 2)
  {
    OneRight(h, lp, rp, key, way, j);
    if h.left.Fork? && key < h.left.node.key { TwoRight(h, lp, rp, key, way, j); }
    hide Halving;
    if h.left.Fork? && h.left.node.key < key {
      OneLeft(h.left, lp, Left(h.node, h.balance, h.right, rp), key, way, j + 1);
    }
  }

  lemma MapTurnLeft(h: Tree, lp: Path, rp: Path, key: int, way: seq<Node>, j: nat)
    requires Halving(h, lp, rp, key, way, j) && HalfAsLong(lp, rp, j) && h.Fork? && h.node.key < key
    ensures Halving(h.right, Right(h.left, h.node, h.balance, lp), rp, key, way, j + 1)
    ensures h.right.Fork? && h.right.node.key < key ==>
              var w := LeftRotated(h); var lp' := Right(w.left, w.node, w.balance, lp);
              Halving(w.right, lp', rp, key, way, j + 2) && HalfAsLong(lp', rp, j + 2)
    ensures h.right.Fork? && key < h.right.node.key ==>
              var r := h.right;
              var lp', rp' := Right(h.left, h.node, h.balance, lp), Left(r.node, r.balance, r.right, rp);
              Halving(r.left, lp', rp', key, way, j + 2) && HalfAsLong(lp', rp', j + 2)
  {
    OneLeft(h, lp, rp, key, way, j);
    if h.right.Fork? && h.right.node.key < key { TwoLeft(h, lp, rp, key, way, j); }
    hide Halving;
    if h.right.Fork? && key < h.right.node.key {
      OneRight(h.right, Right(h.left, h.node, h.balance, lp), rp, key, way, j + 1);
    }
  }

  // ---------- The end ----------

  /** The parts put together. */
  ghost function Joined(h: Tree, lp: Path, rp: Path): Tree
    requires h.Fork?
  {
    Fork(Plug(lp, h.left), h.node, h.balance, Plug(rp, h.right))
  }

  lemma AsideJoined(h: Tree, lp: Path, rp: Path, n: Node, d: int)
    requires h.Fork? && Aside(lp, rp, n, d)
    ensures Within(Joined(h, lp, rp), n, d + 1)
  {
    PlugKeeps(lp, Leaf, h.left, n);
    PlugKeeps(rp, Leaf, h.right, n);
  }

  /** The way ends at or before the head. */
  lemma EndsHalved(h: Tree, lp: Path, rp: Path, key: int, way: seq<Node>, j: nat, u: Tree)
    requires Halving(h, lp, rp, key, way, j) && u.Fork? && (way[j..] == [] || way[j..] == [u.node])
    ensures Halved(way, Joined(u, lp, rp))
  {
    forall i | 0 <= i < |way|
      ensures Within(Joined(u, lp, rp), way[i], i / 2 + 2)
    {
      if i < j { AsideJoined(u, lp, rp, way[i], i / 2 + 1); } else { assert way[i] == way[j..][i - j]; }
    }
  }

  /** The search stops at the head, whether it has found the key or can go no further. */
  lemma EndsAtHead(h: Tree, lp: Path, rp: Path, key: int, way: seq<Node>, j: nat)
    requires Halving(h, lp, rp, key, way, j) && h.Fork?
    requires h.node.key == key || (key < h.node.key && h.left == Leaf) || (h.node.key < key && h.right == Leaf)
    ensures Halved(way, Joined(h, lp, rp))
  {
    assert Way(Leaf, key) == [] && Way(h, key) == [h.node];
    EndsHalved(h, lp, rp, key, way, j, h);
  }

  /** The way ends at a child that has just been rotated to the top. */
  lemma EndsRotatedRight(h: Tree, lp: Path, rp: Path, key: int, way: seq<Node>, j: nat)
    requires Halving(h, lp, rp, key, way, j) && h.Fork? && h.left.Fork? && key < h.node.key && key < h.left.node.key
    requires h.left.left == Leaf && 2 * Length(rp) <= j
    ensures Halved(way, Joined(RightRotated(h), lp, rp))
  {
    var w, x, y := RightRotated(h), h.node, h.left.node;
    assert Way(h.left, key) == [y] + Way(Leaf, key) && Way(h, key) == [x, y] + [];
    TwoOfWay(h, key, way, j, x, y, []);
    forall i | 0 <= i < |way|
      ensures Within(Joined(w, lp, rp), way[i], i / 2 + 2)
    {
      if i < j {
        AsideJoined(w, lp, rp, way[i], i / 2 + 1);
      } else if i == j {
        assert Within(w.right, x, 0);
        PlugDepth(rp, w.right, x, 0);
        WithinMore(Plug(rp, w.right), x, Length(rp), i / 2 + 1);
      }
    }
  }

  lemma EndsRotatedLeft(h: Tree, lp: Path, rp: Path, key: int, way: seq<Node>, j: nat)
    requires Halving(h, lp, rp, key, way, j) && h.Fork? && h.right.Fork? && h.node.key < key && h.right.node.key < key
    requires h.right.right == Leaf && 2 * Length(lp) <= j
    ensures Halved(way, Joined(LeftRotated(h), lp, rp))
  {
    var w, x, y := LeftRotated(h), h.node, h.right.node;
    assert Way(h.right, key) == [y] + Way(Leaf, key) && Way(h, key) == [x, y] + [];
    TwoOfWay(h, key, way, j, x, y, []);
    forall i | 0 <= i < |way|
      ensures Within(Joined(w, lp, rp), way[i], i / 2 + 2)
    {
      if i < j {
        AsideJoined(w, lp, rp, way[i], i / 2 + 1);
      } else if i == j {
        assert Within(w.left, x, 0);
        PlugDepth(lp, w.left, x, 0);
        WithinMore(Plug(lp, w.left), x, Length(lp), i / 2 + 1);
      }
    }
  }
}
