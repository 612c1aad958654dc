/** Longest increasing subsequences (ulib/include/ulib/dp_lis.h). */
module Lis {
  /** `ix` picks a strictly increasing subsequence of `s`. */
  ghost predicate Increasing(s: seq<int>, ix: seq<nat>) {
    && (forall k :: 0 <= k < |ix| ==> ix[k] < |s|)
    && (forall k, l :: 0 <= k < l < |ix| ==> ix[k] < ix[l] && s[ix[k]] < s[ix[l]])
  }

  /** The length of a longest increasing subsequence of `s` is `len`. */
  ghost predicate Longest(s: seq<int>, len: int) {
    (exists ix :: Increasing(s, ix) && |ix| == len) && forall ix :: Increasing(s, ix) ==> |ix| <= len
  }

  ghost predicate Lists(s: seq<int>, r: seq<int>, ix: seq<nat>) {
    Increasing(s, ix) && |ix| == |r| && forall k :: 0 <= k < |r| ==> r[k] == s[ix[k]]
  }

  /** `r` is an increasing subsequence of `s`. */
  ghost predicate Listed(s: seq<int>, r: seq<int>) { exists ix :: Lists(s, r, ix) }

  /** No increasing subsequence that ends at `p` is longer than `len`. */
  ghost predicate AtMost(s: seq<int>, p: nat, len: int) {
    forall ix :: Increasing(s, ix) && ix != [] && ix[|ix| - 1] == p ==> |ix| <= len
  }

  /** What is known of position `p`: `c` is a longest increasing subsequence that ends there, and continues
      that of its predecessor. */
  ghost predicate ChainOk(s: seq<int>, chains: seq<seq<nat>>, pred: seq<int>, p: nat)
    requires p < |chains| <= |s| && |chains| <= |pred|
  {
    var c := chains[p];
    && Increasing(s, c) && c != [] && c[|c| - 1] == p && AtMost(s, p, |c|)
    && (|c| > 1 ==> 0 <= pred[p] < p && c == chains[pred[p]] + [p])
  }

  /** `pos[j]` is where `opt[j]` is, and a longest increasing subsequence that ends there has length `j + 1`. */
  ghost predicate LevelAt(s: seq<int>, chains: seq<seq<nat>>, opt: seq<int>, pos: seq<int>, j: nat)
    requires |chains| <= |s| && j < |opt| == |pos|
  {
    0 <= pos[j] < |chains| && opt[j] == s[pos[j]] && |chains[pos[j]]| == j + 1
  }

  /** Position `p` is on one of the levels, and the level's element is not greater. */
  ghost predicate OnLevel(s: seq<int>, chains: seq<seq<nat>>, opt: seq<int>, levels: nat, p: nat)
    requires p < |chains| <= |s| && levels <= |opt|
  {
    1 <= |chains[p]| <= levels && opt[|chains[p]| - 1] <= s[p]
  }

  ghost predicate Rising(opt: seq<int>, levels: nat)
    requires levels <= |opt|
  {
    forall j, k :: 0 <= j < k < levels ==> opt[j] < opt[k]
  }

  /** `opt[j]` is the least element that ends a longest increasing subsequence of length `j + 1`. */
  ghost predicate LevelsOk(s: seq<int>, chains: seq<seq<nat>>, opt: seq<int>, pos: seq<int>, levels: nat)
    requires |chains| <= |s| && levels <= |opt| == |pos|
  {
    && (forall j :: 0 <= j < levels ==> LevelAt(s, chains, opt, pos, j))
    && Rising(opt, levels)
    && (forall p :: 0 <= p < |chains| ==> OnLevel(s, chains, opt, levels, p))
  }

  /** The level of a new element: all lower ones end below it, its own does not. */
  ghost predicate LevelOf(opt: seq<int>, levels: nat, x: int, j: nat)
    requires levels <= |opt|
  {
    j <= levels && (forall k :: 0 <= k < j ==> opt[k] < x) && (j < levels ==> x <= opt[j])
  }

  lemma Extended(s: seq<int>, c: seq<nat>, i: nat)
    requires Increasing(s, c) && c != [] && c[|c| - 1] < i < |s| && s[c[|c| - 1]] < s[i]
    ensures Increasing(s, c + [i])
  {
    var d := c + [i];
    forall k, l | 0 <= k < l < |d|
      ensures d[k] < d[l] && s[d[k]] < s[d[l]]
    {
      assert k < |c| - 1 ==> c[k] < c[|c| - 1] && s[c[k]] < s[c[|c| - 1]];
    }
  }

  lemma Alone(s: seq<int>, i: nat)
    requires i < |s|
    ensures Increasing(s, [i])
  {
  }

  lemma Shortened(s: seq<int>, ix: seq<nat>)
    requires Increasing(s, ix) && |ix| > 1
    ensures var m := |ix|; Increasing(s, ix[..m - 1]) && ix[m - 2] < ix[m - 1] && s[ix[m - 2]] < s[ix[m - 1]]
  {
  }

  /** No subsequence that ends here is longer than its level says. */
  lemma NewAtMost(s: seq<int>, chains: seq<seq<nat>>, opt: seq<int>, pos: seq<int>, levels: nat, j: nat)
    requires |chains| < |s| && levels <= |opt| == |pos|
    requires LevelsOk(s, chains, opt, pos, levels) && LevelOf(opt, levels, s[|chains|], j)
    requires forall p :: 0 <= p < |chains| ==> AtMost(s, p, |chains[p]|)
    ensures AtMost(s, |chains|, j + 1)
  {
    forall ix | Increasing(s, ix) && ix != [] && ix[|ix| - 1] == |chains|
      ensures |ix| <= j + 1
    {
      var m := |ix|;
      if m > 1 {
        Shortened(s, ix);
        var p := ix[m - 2];
        hide Increasing, Rising, LevelAt;
        assert AtMost(s, p, |chains[p]|) && ix[..m - 1][m - 2] == p;
        assert OnLevel(s, chains, opt, levels, p);
      }
    }
  }

  /** The predecessor's subsequence, continued, is a longest one that ends here. */
  lemma NewChain(s: seq<int>, chains: seq<seq<nat>>, opt: seq<int>, pos: seq<int>, pred: seq<int>, levels: nat, j: nat)
    returns (c: seq<nat>)
    requires |chains| < |s| && levels <= |opt| == |pos| && |chains| <= |pred|
    requires LevelsOk(s, chains, opt, pos, levels) && LevelOf(opt, levels, s[|chains|], j)
    requires forall p :: 0 <= p < |chains| ==> ChainOk(s, chains, pred, p)
    ensures j == 0 ==> c == [|chains|]
    ensures j > 0 ==> 0 <= pos[j - 1] < |chains| && c == chains[pos[j - 1]] + [|chains|]
    ensures Increasing(s, c) && |c| == j + 1 && AtMost(s, |chains|, |c|)
  {
    var i := |chains|;
    assert forall p :: 0 <= p < |chains| ==> ChainOk(s, chains, pred, p) && AtMost(s, p, |chains[p]|);
    NewAtMost(s, chains, opt, pos, levels, j);
    hide AtMost, Increasing, OnLevel, Rising;
    if j > 0 {
      assert LevelAt(s, chains, opt, pos, j - 1);
      assert ChainOk(s, chains, pred, pos[j - 1]);
      Extended(s, chains[pos[j - 1]], i);
      c := chains[pos[j - 1]] + [i];
    } else {
      Alone(s, i);
      c := [i];
    }
  }

  lemma NewLevel(s: seq<int>, chains: seq<seq<nat>>, opt: seq<int>, pos: seq<int>, levels: nat, j: nat, c: seq<nat>)
    requires |chains| < |s| && levels <= |opt| == |pos| && j < |opt|
    requires LevelsOk(s, chains, opt, pos, levels) && LevelOf(opt, levels, s[|chains|], j)
    requires |c| == j + 1
    ensures var i := |chains|;
            LevelsOk(s, chains + [c], opt[j := s[i]], pos[j := i], if j == levels then levels + 1 else levels)
  {
    var i, x, n := |chains|, s[|chains|], if j == levels then levels + 1 else levels;
    var chains', opt', pos' := chains + [c], opt[j := x], pos[j := i];
    forall k | 0 <= k < n
      ensures LevelAt(s, chains', opt', pos', k)
    {
      assert k != j ==> LevelAt(s, chains, opt, pos, k);
    }
    forall k, l | 0 <= k < l < n
      ensures opt'[k] < opt'[l]
    {
      assert l < levels ==> opt[k] < opt[l];
      assert k == j && l < levels ==> x <= opt[j];
    }
    forall p | 0 <= p < |chains'|
      ensures OnLevel(s, chains', opt', n, p)
    {
      assert p < i ==> OnLevel(s, chains, opt, levels, p);
    }
  }

  lemma OlderChain(s: seq<int>, chains: seq<seq<nat>>, pred: seq<int>, c: seq<nat>, q: int, p: nat)
    requires p < |chains| < |s| && |chains| < |pred| && ChainOk(s, chains, pred, p)
    ensures ChainOk(s, chains + [c], pred[|chains| := q], p)
  {
    var chains' := chains + [c];
    assert chains'[p] == chains[p] && (|chains[p]| > 1 ==> chains'[pred[p]] == chains[pred[p]]);
  }

  /** Every position's chain is at most as long as there are levels, so nothing increases for longer. */
  lemma NothingLonger(s: seq<int>, chains: seq<seq<nat>>, opt: seq<int>, pos: seq<int>, pred: seq<int>, levels: nat,
                      ix: seq<nat>)
    requires |chains| == |s| && levels <= |opt| == |pos| && |chains| <= |pred|
    requires LevelsOk(s, chains, opt, pos, levels) && Increasing(s, ix)
    requires forall p :: 0 <= p < |chains| ==> ChainOk(s, chains, pred, p)
    ensures |ix| <= levels
  {
    if ix != [] {
      var p := ix[|ix| - 1];
      assert ChainOk(s, chains, pred, p) && OnLevel(s, chains, opt, levels, p);
    }
  }

  /** The state of the tables when the first `i` elements have been processed. */
  ghost predicate TablesOk(s: seq<int>, chains: seq<seq<nat>>, opt: seq<int>, pos: seq<int>, pred: seq<int>,
                           levels: nat) {
    && |chains| <= |s| && levels <= |opt| == |pos| == |pred| == |s|
    && LevelsOk(s, chains, opt, pos, levels)
    && forall p :: 0 <= p < |chains| ==> ChainOk(s, chains, pred, p)
  }

  /** One more element, at level `j`. */
  lemma ElementAdded(s: seq<int>, chains: seq<seq<nat>>, opt: seq<int>, pos: seq<int>, pred: seq<int>, levels: nat,
                     j: nat, q: int) returns (c: seq<nat>)
    requires TablesOk(s, chains, opt, pos, pred, levels) && |chains| < |s| && LevelOf(opt, levels, s[|chains|], j)
    requires j < |opt| && (j > 0 ==> q == pos[j - 1])
    ensures |c| == j + 1
    ensures var i := |chains|;
            TablesOk(s, chains + [c], opt[j := s[i]], pos[j := i], pred[i := q],
                     if j == levels then levels + 1 else levels)
  {
    var i := |chains|;
    c := NewChain(s, chains, opt, pos, pred, levels, j);
    NewLevel(s, chains, opt, pos, levels, j, c);
    hide LevelsOk, AtMost, Increasing, ChainOk, LevelOf;
    NewestChain(s, chains, pred, q, c);
    var chains', pred' := chains + [c], pred[i := q];
    forall p | 0 <= p < |chains|
      ensures ChainOk(s, chains', pred', p)
    {
      OlderChain(s, chains, pred, c, q, p);
    }
  }

  lemma NewestChain(s: seq<int>, chains: seq<seq<nat>>, pred: seq<int>, q: int, c: seq<nat>)
    requires |chains| < |s| && |chains| < |pred| && Increasing(s, c) && AtMost(s, |chains|, |c|)
    requires c == [|chains|] || (0 <= q < |chains| && c == chains[q] + [|chains|])
    ensures ChainOk(s, chains + [c], pred[|chains| := q], |chains|)
  {
    hide AtMost, Increasing;
  }

  /** A longest subsequence is found by following the predecessors back. */
  lemma Predecessor(s: seq<int>, chains: seq<seq<nat>>, opt: seq<int>, pos: seq<int>, pred: seq<int>, levels: nat,
                    c: seq<nat>, i: nat, p: nat)
    requires TablesOk(s, chains, opt, pos, pred, levels) && i < |c| && p < |chains| && chains[p] == c[..i + 1]
    ensures c[i] == p && (i > 0 ==> 0 <= pred[p] < |chains| && chains[pred[p]] == c[..i])
  {
    assert ChainOk(s, chains, pred, p);
    assert c[..i + 1][i] == c[i];
    if i > 0 {
      assert c[..i + 1] == chains[pred[p]] + [p];
      assert c[..i] == c[..i + 1][..i];
    }
  }

  /** `dp_lis`: the length of a longest increasing subsequence; `res`, if given, receives one. */
  method LongestIncreasing(a: array?<int>, res: array?<int>, num: int) returns (len: int)
    requires a != null ==> num <= a.Length
    requires res != null ==> num <= res.Length && res != a
    modifies if res == null then {} else {res}
    ensures a == null || num <= 0 ==> len == 0
    ensures a != null && num > 0 ==> 0 <= len <= num && Longest(a[..num], len)
    ensures a != null && num > 0 && res != null ==> Listed(a[..num], res[..len])
    ensures res != null ==> forall k :: len <= k < res.Length ==> res[k] == old(res[k])
  {
    if a == null || num <= 0 { return 0; }
    var opt, pos, sub, pred := new int[num], new int[num], new int[num], new int[num];
    ghost var s := a[..num];
    ghost var chains;
    len, chains := Levels(a, num, opt, pos, sub, pred);
    LongestFound(s, chains, opt[..], pos[..], pred[..], len);
    if res != null {
      ghost var c := chains[pos[len - 1]];
      var p := pos[len - 1];
      var i := len - 1;
      assert c[..i + 1] == c;
      while i >= 0
        invariant -1 <= i < len && a[..num] == s
        invariant TablesOk(s, chains, opt[..], pos[..], pred[..], len)
        invariant i >= 0 ==> 0 <= p < num && chains[p] == c[..i + 1]
        invariant forall k :: i < k < len ==> res[k] == s[c[k]]
        invariant forall k :: len <= k < res.Length ==> res[k] == old(res[k])
      {
        Predecessor(s, chains, opt[..], pos[..], pred[..], len, c, i, p);
        hide TablesOk;
        res[i] := a[p];
        p := pred[p];
        i := i - 1;
      }
      assert Lists(s, res[..len], c);
    }
  }

  lemma LongestFound(s: seq<int>, chains: seq<seq<nat>>, opt: seq<int>, pos: seq<int>, pred: seq<int>, levels: nat)
    requires TablesOk(s, chains, opt, pos, pred, levels) && |chains| == |s| && levels > 0
    ensures Longest(s, levels)
    ensures 0 <= pos[levels - 1] < |s| && |chains[pos[levels - 1]]| == levels && Increasing(s, chains[pos[levels - 1]])
  {
    assert LevelAt(s, chains, opt, pos, levels - 1);
    assert ChainOk(s, chains, pred, pos[levels - 1]);
    forall ix | Increasing(s, ix)
      ensures |ix| <= levels
    {
      NothingLonger(s, chains, opt, pos, pred, levels, ix);
    }
  }

  /** The main loop of `dp_lis`. */
  method Levels(a: array<int>, num: int, opt: array<int>, pos: array<int>, sub: array<int>, pred: array<int>)
    returns (len: int, ghost chains: seq<seq<nat>>)
    requires 0 < num <= a.Length && opt.Length == pos.Length == sub.Length == pred.Length == num
    requires a !in {opt, pos, sub, pred} && opt !in {pos, sub, pred} && pos !in {sub, pred} && sub != pred
    modifies opt, pos, sub, pred
    ensures 0 < len <= num && |chains| == num && TablesOk(a[..num], chains, opt[..], pos[..], pred[..], len)
    ensures forall p :: 0 <= p < num ==> sub[p] == |chains[p]|
  {
    ghost var s := a[..num];
    chains := FirstElement(s, opt[..], pos[..], pred[..]);
    ghost var opt0, pos0 := opt[..], pos[..];
    opt[0] := a[0];
    pos[0] := 0;
    sub[0] := 1;
    len := 1;
    assert opt[..] == opt0[0 := s[0]] && pos[..] == pos0[0 := 0];
    for i := 1 to num
      invariant |chains| == i && 1 <= len <= i && a[..num] == s
      invariant TablesOk(s, chains, opt[..], pos[..], pred[..], len)
      invariant forall p :: 0 <= p < i ==> sub[p] == |chains[p]|
    {
      assert Rising(opt[..], len);
      var j := Level(opt, len, a[i]);
      ghost var q := if j == 0 then pred[i] else pos[j - 1];
      ghost var c := ElementAdded(s, chains, opt[..], pos[..], pred[..], len, j, q);
      hide TablesOk, LevelOf;
      chains := chains + [c];
      ghost var opt', pos', pred' := opt[..][j := a[i]], pos[..][j := i], pred[..][i := q];
      opt[j] := a[i];
      pos[j] := i;
      sub[i] := j + 1;
      if j > 0 {
        pred[i] := pos[j - 1];
        if j == len { len := len + 1; }
      }
      assert opt[..] == opt' && pos[..] == pos' && pred[..] == pred';
    }
  }

  lemma FirstElement(s: seq<int>, opt: seq<int>, pos: seq<int>, pred: seq<int>) returns (chains: seq<seq<nat>>)
    requires s != [] && |opt| == |pos| == |pred| == |s|
    ensures |chains| == 1 && |chains[0]| == 1 && TablesOk(s, chains, opt[0 := s[0]], pos[0 := 0], pred, 1)
  {
    var c := ElementAdded(s, [], opt, pos, pred, 0, 0, pred[0]);
    chains := [] + [c];
    assert pred[0 := pred[0]] == pred;
  }

  /** The binary search for the level of `x`. */
  method Level(opt: array<int>, levels: int, x: int) returns (j: int)
    requires 0 <= levels <= opt.Length && Rising(opt[..], levels)
    ensures 0 <= j && LevelOf(opt[..], levels, x, j)
  {
    var k := levels;
    j := 0;
    while j < k
      invariant 0 <= j <= k <= levels
      invariant forall i :: 0 <= i < j ==> opt[i] < x
      invariant k < levels ==> x < opt[k]
    {
      var m := (j + k) / 2;
      if x == opt[m] {
        j := m;
        break;
      }
      if x < opt[m] { k := m; } else { j := m + 1; }
    }
  }
}
