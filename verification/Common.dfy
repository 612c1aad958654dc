/** Definitions shared by several modules. */
module Common {
  datatype Option<+T> = None | Some(value: T)

  function Pow2(k: nat): (p: nat)
    ensures p >= 1
  {
    if k == 0 then 1 else 2 * Pow2(k - 1)
  }

  lemma {:induction false} Pow2Grows(j: nat, k: nat)
    requires j <= k
    ensures Pow2(j) <= Pow2(k)
  {
    if j < k { Pow2Grows(j, k - 1); }
  }

  /** The bitwise `&` of two numbers. */
  function And(x: nat, y: nat): nat {
    if x == 0 || y == 0 then 0 else 2 * And(x / 2, y / 2) + (if x % 2 == 1 && y % 2 == 1 then 1 else 0)
  }

  ghost predicate Distinct<T>(s: seq<T>) {
    forall i, j :: 0 <= i < j < |s| ==> s[i] != s[j]
  }

  /** No element occurs more than once. */
  lemma DistinctIsOnce<T>(s: seq<T>)
    ensures Distinct(s) <==> forall x :: multiset(s)[x] <= 1
  {
    if Distinct(s) { DistinctCounts(s); }
    if forall x :: multiset(s)[x] <= 1 {
      forall i, j | 0 <= i < j < |s|
        ensures s[i] != s[j]
      {
        OnceAt(s, i, j);
      }
    }
  }

  lemma {:induction false} DistinctCounts<T>(s: seq<T>)
    requires Distinct(s)
    ensures forall x :: multiset(s)[x] <= 1
  {
    if s != [] {
      var p, y := s[..|s| - 1], s[|s| - 1];
      DistinctCounts(p);
      assert s == p + [y] && y !in p;
      assert multiset(s) == multiset(p) + multiset{y};
    }
  }

  lemma OnceAt<T>(s: seq<T>, i: nat, j: nat)
    requires i < j < |s| && multiset(s)[s[i]] <= 1
    ensures s[i] != s[j]
  {
    assert s == s[..j] + [s[j]] + s[j + 1..];
    assert s[i] in s[..j] && multiset(s[..j])[s[i]] >= 1;
    assert multiset(s) == multiset(s[..j]) + multiset([s[j]]) + multiset(s[j + 1..]);
  }

  function Remainder(x: nat, m: nat): (r: nat)
    requires m > 0
    ensures r < m && (x < m ==> r == x)
  {
    x % m
  }

  /** Quotient and remainder are unique. */
  lemma Division(x: int, q: int, r: int, m: int)
    requires x == q * m + r && 0 <= r < m
    ensures x / m == q && x % m == r
  {
    var d := x / m - q;
    assert d * m == r - x % m;
    assert d >= 1 ==> d * m >= m;
    assert d <= -1 ==> d * m <= -m;
  }

  /** Those who came are those let in followed by those waiting, and stay so when some come and some
      are let in. */
  lemma AppendBothSides<T>(came: seq<T>, entered: seq<T>, waiting: seq<T>,
                           came': seq<T>, entered': seq<T>, waiting': seq<T>)
    requires came == entered + waiting && waiting + came' == entered' + waiting'
    ensures came + came' == entered + entered' + waiting'
  {
    assert entered + waiting + came' == entered + (waiting + came');
  }

  /** There are no more than `n` numbers below `n`. */
  lemma {:induction false} Pigeonhole(s: set<nat>, n: nat)
    requires forall x :: x in s ==> x < n
    ensures |s| <= n
  {
    if n == 0 {
      assert s == {};
    } else {
      Pigeonhole(s - {n - 1}, n - 1);
      assert n - 1 !in s ==> s == s - {n - 1};
    }
  }
}
