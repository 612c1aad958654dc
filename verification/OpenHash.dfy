/** The open-addressing hash table (ulib/src/base/hash_open_prot.h).

    A bucket is empty, live or deleted (a tombstone).  The table is specified by the finite map
    it stores; `at` records after how many probes each key is found. */
module OpenHash {
  import opened Common
  import opened Probing

  datatype Flag = Empty | Live | Deleted

  /** Results of `openhash_set`. */
  datatype InsertCode = InsErr | InsNew | InsDel

  /** `(oh_size_t)(nbucket * OH_LOAD_FACTOR)`. */
  function Bound(nbucket: nat): (b: nat)
    ensures 10 * b <= 7 * nbucket < 10 * (b + 1)
  {
    nbucket * 7 / 10
  }

  /** Doubling a table (or starting with two buckets) always makes room. */
  lemma Doubling(nbucket: nat)
    ensures nbucket > 0 ==> Bound(nbucket) < Bound(2 * nbucket)
    ensures Bound(0) < Bound(2) && IsPow2(2)
    ensures IsPow2(nbucket) ==> IsPow2(2 * nbucket)
  {
    assert Pow2(0) == 1 && Pow2(1) == 2;
    if IsPow2(nbucket) {
      var k: nat :| nbucket == Pow2(k);
      assert 2 * nbucket == Pow2(k + 1);
    }
  }

  // ---------- Counting buckets ----------

  ghost function Weight(x: Flag): nat { if x == Empty then 0 else 1 }

  /** The number of buckets that are not empty. */
  ghost function Used(f: seq<Flag>): nat {
    if f == [] then 0 else Used(f[..|f| - 1]) + Weight(f[|f| - 1])
  }

  lemma {:induction false} UsedUpdate(f: seq<Flag>, i: nat, x: Flag)
    requires i < |f|
    ensures Used(f[i := x]) + Weight(f[i]) == Used(f) + Weight(x)
  {
    var n := |f| - 1;
    if i < n {
      UsedUpdate(f[..n], i, x);
      assert f[i := x][..n] == f[..n][i := x];
    } else {
      assert f[i := x][..n] == f[..n];
    }
  }

  /** A table whose used count is below its size has an empty bucket. */
  lemma {:induction false} EmptyExists(f: seq<Flag>) returns (i: nat)
    requires Used(f) < |f|
    ensures i < |f| && f[i] == Empty
  {
    var n := |f| - 1;
    if f[n] == Empty { i := n; } else { i := EmptyExists(f[..n]); }
  }

  lemma {:induction false} UsedOfEmpty(f: seq<Flag>)
    requires forall i :: 0 <= i < |f| ==> f[i] == Empty
    ensures Used(f) == 0
  {
    if f != [] { UsedOfEmpty(f[..|f| - 1]); }
  }

  // ---------- What a table stores ----------

  /** The first `j` buckets on the probe path of `h` are all in use. */
  ghost predicate Path(f: seq<Flag>, h: nat, j: nat)
    requires f != []
  {
    forall i {:trigger Probe(h, |f|, i)} :: 0 <= i < j ==> f[Probe(h, |f|, i)] != Empty
  }

  /** None of the first `j` buckets on the probe path of `h` holds `key`. */
  ghost predicate Passed<K>(f: seq<Flag>, keys: seq<K>, h: nat, key: K, j: nat)
    requires f != [] && |keys| >= |f|
  {
    forall i {:trigger Probe(h, |f|, i)} :: 0 <= i < j ==>
      f[Probe(h, |f|, i)] == Deleted || keys[Probe(h, |f|, i)] != key
  }

  /** Of the first `e` buckets on the probe path the `j`th is the last tombstone, if any is one. */
  ghost predicate LastTombstone(f: seq<Flag>, h: nat, j: nat, e: nat)
    requires f != []
  {
    && j <= e && Path(f, h, e) && (j < e ==> f[Probe(h, |f|, j)] == Deleted)
    && forall i {:trigger Probe(h, |f|, i)} :: 0 <= i < e && f[Probe(h, |f|, i)] == Deleted ==> i <= j < e
  }

  ghost predicate KeyAt<K, V>(f: seq<Flag>, keys: seq<K>, vals: seq<V>, hash: K -> nat,
                              at: map<K, nat>, m: map<K, V>, k: K)
    requires |keys| == |vals| >= |f|
  {
    && k in m && k in at && f != []
    && Path(f, hash(k), at[k])
    && var i := Probe(hash(k), |f|, at[k]); f[i] == Live && keys[i] == k && vals[i] == m[k]
  }

  /** Bucket `i` holds a key of the map, in the key's own place. */
  ghost predicate BucketOk<K, V>(f: seq<Flag>, keys: seq<K>, hash: K -> nat,
                                 at: map<K, nat>, m: map<K, V>, i: nat)
    requires |keys| >= |f| && i < |f|
  {
    f[i] == Live ==> keys[i] in m && keys[i] in at && Probe(hash(keys[i]), |f|, at[keys[i]]) == i
  }

  ghost predicate Stored<K, V>(f: seq<Flag>, keys: seq<K>, vals: seq<V>, hash: K -> nat,
                               at: map<K, nat>, m: map<K, V>)
  {
    && |keys| == |vals| >= |f|
    && at.Keys == m.Keys
    && (forall k :: k in m ==> KeyAt(f, keys, vals, hash, at, m, k))
    && (forall i :: 0 <= i < |f| ==> BucketOk(f, keys, hash, at, m, i))
  }

  lemma NoTombstone(f: seq<Flag>, h: nat)
    requires f != []
    ensures LastTombstone(f, h, 0, 0)
  {
  }

  /** The path goes on by a bucket that is in use. */
  lemma TombstoneStep(f: seq<Flag>, h: nat, j: nat, e: nat)
    requires f != [] && LastTombstone(f, h, j, e) && f[Probe(h, |f|, e)] != Empty
    ensures f[Probe(h, |f|, e)] == Deleted ==> LastTombstone(f, h, e, e + 1)
    ensures f[Probe(h, |f|, e)] == Live ==> LastTombstone(f, h, if j == e then e + 1 else j, e + 1)
  {
    hide Probe;
  }

  /** A key whose probe path reaches an empty bucket without meeting it is absent. */
  lemma AbsentWhenPathEnds<K, V>(f: seq<Flag>, keys: seq<K>, vals: seq<V>, hash: K -> nat,
                                 at: map<K, nat>, m: map<K, V>, key: K, j: nat)
    requires Stored(f, keys, vals, hash, at, m) && f != []
    requires f[Probe(hash(key), |f|, j)] == Empty
    requires Passed(f, keys, hash(key), key, j)
    ensures key !in m
  {
    assert key in m ==> KeyAt(f, keys, vals, hash, at, m, key);
  }

  /** A live bucket holding the key is the key's own. */
  lemma PresentWhenMet<K, V>(f: seq<Flag>, keys: seq<K>, vals: seq<V>, hash: K -> nat,
                             at: map<K, nat>, m: map<K, V>, i: nat)
    requires Stored(f, keys, vals, hash, at, m) && i < |f| && f[i] == Live
    ensures keys[i] in m && vals[i] == m[keys[i]]
  {
    assert BucketOk(f, keys, hash, at, m, i);
    assert KeyAt(f, keys, vals, hash, at, m, keys[i]);
  }

  lemma PathPrefix(f: seq<Flag>, h: nat, i: nat, j: nat)
    requires f != [] && i <= j && Path(f, h, j)
    ensures Path(f, h, i)
  {
    hide Probe;
  }

  lemma PassOne<K>(f: seq<Flag>, keys: seq<K>, h: nat, key: K, j: nat)
    requires f != [] && |keys| >= |f| && Passed(f, keys, h, key, j)
    requires f[Probe(h, |f|, j)] == Deleted || keys[Probe(h, |f|, j)] != key
    ensures Passed(f, keys, h, key, j + 1)
    ensures Path(f, h, j) && f[Probe(h, |f|, j)] != Empty ==> Path(f, h, j + 1)
  {
    hide Probe;
  }

  /** The probe path of any key meets an empty bucket if there is one. */
  lemma EmptyOnPath(f: seq<Flag>, h: nat) returns (far: nat)
    requires IsPow2(|f|) && Used(f) < |f|
    ensures far < |f| && f[Probe(h, |f|, far)] == Empty
  {
    var free := EmptyExists(f);
    EveryBucketIsProbed(h, |f|, free);
    far :| 0 <= far < |f| && Probe(h, |f|, far) == free;
  }

  lemma InsertKeepsStored<K, V>(f: seq<Flag>, keys: seq<K>, vals: seq<V>, hash: K -> nat,
                                at: map<K, nat>, m: map<K, V>, key: K, j: nat)
    requires Stored(f, keys, vals, hash, at, m) && f != [] && key !in m
    requires Path(f, hash(key), j) && f[Probe(hash(key), |f|, j)] != Live
    ensures var x := Probe(hash(key), |f|, j);
            && Stored(f[x := Live], keys[x := key], vals, hash, at[key := j], m[key := vals[x]])
            && Used(f[x := Live]) == Used(f) + if f[x] == Empty then 1 else 0
  {
    var x := Probe(hash(key), |f|, j);
    var f', keys', at', m' := f[x := Live], keys[x := key], at[key := j], m[key := vals[x]];
    UsedUpdate(f, x, Live);
    forall k | k in m'
      ensures KeyAt(f', keys', vals, hash, at', m', k)
    {
      if k != key { assert KeyAt(f, keys, vals, hash, at, m, k); }
    }
    forall i | 0 <= i < |f'|
      ensures BucketOk(f', keys', hash, at', m', i)
    {
      assert BucketOk(f, keys, hash, at, m, i);
    }
  }

  lemma DeleteKeepsStored<K, V>(f: seq<Flag>, keys: seq<K>, vals: seq<V>, hash: K -> nat,
                                at: map<K, nat>, m: map<K, V>, x: nat)
    requires Stored(f, keys, vals, hash, at, m) && x < |f| && f[x] == Live
    ensures keys[x] in m
    ensures Stored(f[x := Deleted], keys, vals, hash, at - {keys[x]}, m - {keys[x]})
    ensures Used(f[x := Deleted]) == Used(f) && |m - {keys[x]}| == |m| - 1
  {
    var f', at', m' := f[x := Deleted], at - {keys[x]}, m - {keys[x]};
    assert BucketOk(f, keys, hash, at, m, x);
    UsedUpdate(f, x, Deleted);
    assert m == m'[keys[x] := m[keys[x]]];
    forall k | k in m'
      ensures KeyAt(f', keys, vals, hash, at', m', k)
    {
      assert KeyAt(f, keys, vals, hash, at, m, k);
    }
    forall i | 0 <= i < |f'|
      ensures BucketOk(f', keys, hash, at', m', i)
    {
      assert BucketOk(f, keys, hash, at, m, i);
      if i != x && f[i] == Live { assert keys[i] != keys[x]; }
    }
  }

  lemma PutKeepsStored<K, V>(f: seq<Flag>, keys: seq<K>, vals: seq<V>, hash: K -> nat,
                             at: map<K, nat>, m: map<K, V>, x: nat, v: V)
    requires Stored(f, keys, vals, hash, at, m) && x < |f| && f[x] == Live
    ensures keys[x] in m
    ensures Stored(f, keys, vals[x := v], hash, at, m[keys[x] := v])
  {
    assert BucketOk(f, keys, hash, at, m, x);
    var vals', m' := vals[x := v], m[keys[x] := v];
    forall k | k in m
      ensures KeyAt(f, keys, vals', hash, at, m', k)
    {
      assert KeyAt(f, keys, vals, hash, at, m, k);
    }
    forall i | 0 <= i < |f|
      ensures BucketOk(f, keys, hash, at, m', i)
    {
      assert BucketOk(f, keys, hash, at, m, i);
    }
  }

  /** The number of live buckets. */
  ghost function Lives(f: seq<Flag>): nat {
    if f == [] then 0 else Lives(f[..|f| - 1]) + if f[|f| - 1] == Live then 1 else 0
  }

  lemma {:induction false} LivesAreUsed(f: seq<Flag>)
    ensures Lives(f) <= Used(f)
  {
    if f != [] { LivesAreUsed(f[..|f| - 1]); }
  }

  /** The keys found in the first `n` buckets. */
  ghost function KeysIn<K>(f: seq<Flag>, keys: seq<K>, n: nat): set<K>
    requires n <= |f| <= |keys|
  {
    set i | 0 <= i < n && f[i] == Live :: keys[i]
  }

  lemma LiveKeysDiffer<K, V>(f: seq<Flag>, keys: seq<K>, hash: K -> nat, at: map<K, nat>, m: map<K, V>, i: nat, j: nat)
    requires i < j < |f| <= |keys| && f[i] == Live && f[j] == Live
    requires BucketOk(f, keys, hash, at, m, i) && BucketOk(f, keys, hash, at, m, j)
    ensures keys[i] != keys[j]
  {
  }

  lemma {:induction false} KeysInCount<K, V>(f: seq<Flag>, keys: seq<K>, hash: K -> nat,
                                             at: map<K, nat>, m: map<K, V>, n: nat)
    requires n <= |f| <= |keys| && forall i :: 0 <= i < |f| ==> BucketOk(f, keys, hash, at, m, i)
    ensures |KeysIn(f, keys, n)| == Lives(f[..n])
  {
    if n > 0 {
      KeysInCount(f, keys, hash, at, m, n - 1);
      assert f[..n][..n - 1] == f[..n - 1];
      if f[n - 1] == Live {
        assert KeysIn(f, keys, n) == KeysIn(f, keys, n - 1) + {keys[n - 1]};
        forall i | 0 <= i < n - 1 && f[i] == Live
          ensures keys[i] != keys[n - 1]
        {
          LiveKeysDiffer(f, keys, hash, at, m, i, n - 1);
        }
        hide BucketOk;
      } else {
        assert KeysIn(f, keys, n) == KeysIn(f, keys, n - 1);
      }
    }
  }

  /** A table has exactly as many live buckets as its map has keys. */
  lemma LiveCount<K, V>(f: seq<Flag>, keys: seq<K>, vals: seq<V>, hash: K -> nat,
                        at: map<K, nat>, m: map<K, V>)
    requires Stored(f, keys, vals, hash, at, m)
    ensures Lives(f) == |m| <= Used(f)
  {
    KeysInCount(f, keys, hash, at, m, |f|);
    assert f[..|f|] == f;
    forall k | k in m
      ensures k in KeysIn(f, keys, |f|)
    {
      assert KeyAt(f, keys, vals, hash, at, m, k);
    }
    forall k | k in KeysIn(f, keys, |f|)
      ensures k in m
    {
      var i :| 0 <= i < |f| && f[i] == Live && keys[i] == k;
      assert BucketOk(f, keys, hash, at, m, i);
    }
    assert KeysIn(f, keys, |f|) == m.Keys;
    assert |m.Keys| == |m|;
    LivesAreUsed(f);
  }

  // ---------- Sizes that are not a power of two ----------

  /** In a table of `n` buckets the search of any hash for an empty one succeeds if there is any. */
  ghost predicate SearchesEnd(n: nat)
    requires n > 0
  {
    forall f: seq<Flag>, hash: nat :: |f| == n && Used(f) < n ==> FindsEmpty(f, hash)
  }

  ghost predicate FindsEmpty(f: seq<Flag>, hash: nat)
    requires f != []
  {
    exists i: nat :: i < |f| && f[i] == Empty && Visits(hash, |f|, i)
  }

  /** All buckets but `i` are taken. */
  ghost function AllBut(n: nat, i: nat): (f: seq<Flag>)
    ensures |f| == n && forall x :: 0 <= x < n ==> f[x] == if x == i then Empty else Live
  {
    seq(n, x requires 0 <= x => if x == i then Empty else Live)
  }

  lemma UsedButOne(f: seq<Flag>, i: nat)
    requires i < |f| && f[i] == Empty
    ensures Used(f) < |f|
  {
    UsedUpdate(f, i, Live);
    UsedAtMost(f[i := Live]);
  }

  lemma {:induction false} UsedAtMost(f: seq<Flag>)
    ensures Used(f) <= |f|
  {
    if f != [] { UsedAtMost(f[..|f| - 1]); }
  }

  /** Every search for an empty bucket ends, in every table that has one, if and only if the number of
      buckets is a power of two. */
  lemma SearchesEndExactlyWhen(n: nat)
    requires n > 0
    ensures SearchesEnd(n) <==> IsPow2(n)
  {
    WalkReachesAllExactlyWhen(n);
    hide IsPow2, Visits;
    if IsPow2(n) {
      forall f: seq<Flag>, hash: nat | |f| == n && Used(f) < n
        ensures FindsEmpty(f, hash)
      {
        var i := EmptyExists(f);
      }
    } else {
      var i: nat :| Missed(n, i);
      var f := AllBut(n, i);
      UsedButOne(f, i);
      assert !FindsEmpty(f, 0);
    }
  }

  /** Rehashing into nine buckets accepts up to five elements, but with two of them placed the search for
      a third never ends, whatever its hash. */
  lemma NineBucketsAreTwo(f: seq<Flag>, hash: nat)
    requires |f| == 9 && f[0] != Empty && f[8] != Empty
    ensures 5 < Bound(9) && !FindsEmpty(f, hash)
  {
    forall i: nat | i < 9 && f[i] == Empty
      ensures !Visits(hash, 9, i)
    {
      forall j: nat
        ensures Walk(hash, 9, j) != i
      {
        NineBuckets(hash, j);
      }
    }
  }

  // ---------- The in-place rehash ----------

  /** While rehashing, the old table `f` and the new table `g` share `keys` and `vals`.  Every key
      of `m` is in exactly one of three places: in the new table (`at`), carried, or still in
      its original bucket `home`. */
  ghost predicate Unmoved<K, V>(f: seq<Flag>, keys: seq<K>, vals: seq<V>, m: map<K, V>, home: map<K, nat>, k: K)
    requires |keys| == |vals| >= |f|
  {
    && k in m && k in home && home[k] < |f|
    && f[home[k]] == Live && keys[home[k]] == k && vals[home[k]] == m[k]
  }

  /** A bucket live in the old table still holds its original key, and is not live in the new one. */
  ghost predicate OldBucketOk<K, V>(f: seq<Flag>, g: seq<Flag>, keys: seq<K>, m: map<K, V>,
                                    home: map<K, nat>, at: map<K, nat>, i: nat)
    requires |keys| >= |f| && i < |f|
  {
    f[i] == Live ==>
      && keys[i] in m && keys[i] in home && home[keys[i]] == i && keys[i] !in at
      && (i < |g| ==> g[i] != Live)
  }

  ghost predicate NewBucketOk<K>(g: seq<Flag>, keys: seq<K>, hash: K -> nat, at: map<K, nat>, i: nat)
    requires |keys| >= |g| && i < |g|
  {
    && g[i] != Deleted
    && (g[i] == Live ==> keys[i] in at && Probe(hash(keys[i]), |g|, at[keys[i]]) == i)
  }

  ghost predicate Moving<K, V>(f: seq<Flag>, g: seq<Flag>, keys: seq<K>, vals: seq<V>, hash: K -> nat,
                               m: map<K, V>, home: map<K, nat>, at: map<K, nat>, carried: set<K>)
  {
    && |keys| == |vals| && |keys| >= |f| && |keys| >= |g| && g != []
    && carried <= m.Keys && carried !! at.Keys && at.Keys <= m.Keys
    && (forall k :: k in at ==> KeyAt(g, keys, vals, hash, at, m, k))
    && (forall k :: k in m && k !in at && k !in carried ==> Unmoved(f, keys, vals, m, home, k))
    && (forall i :: 0 <= i < |f| ==> OldBucketOk(f, g, keys, m, home, at, i))
    && (forall i :: 0 <= i < |f| && f[i] == Live ==> keys[i] !in carried)
    && (forall i :: 0 <= i < |g| ==> NewBucketOk(g, keys, hash, at, i))
    && Used(g) == |at|
  }

  /** The rehash only ever takes buckets out of the old table. */
  ghost predicate NoneRevived(f: seq<Flag>, f': seq<Flag>) {
    |f| == |f'| && forall i :: 0 <= i < |f| && f[i] != Live ==> f'[i] != Live
  }

  /** A carried key is not yet in the new table, so the new table is not yet complete. */
  lemma CarriedIsMissing<K, V>(at: map<K, nat>, m: map<K, V>, key: K)
    requires at.Keys <= m.Keys && key in m && key !in at
    ensures |at| < |m|
  {
    assert at.Keys <= m.Keys - {key};
    SubsetCount(at.Keys, m.Keys - {key});
    assert |at| == |at.Keys| && |m| == |m.Keys|;
  }

  lemma {:induction false} SubsetCount<T>(a: set<T>, b: set<T>)
    requires a <= b
    ensures |a| <= |b|
  {
    assert b == a + (b - a);
  }

  /** Only the first `|f|` keys and values matter. */
  lemma PrefixKeepsStored<K, V>(f: seq<Flag>, keys: seq<K>, vals: seq<V>, hash: K -> nat,
                                at: map<K, nat>, m: map<K, V>)
    requires Stored(f, keys, vals, hash, at, m)
    ensures Stored(f, keys[..|f|], vals[..|f|], hash, at, m)
  {
    forall k | k in m
      ensures KeyAt(f, keys[..|f|], vals[..|f|], hash, at, m, k)
    {
      assert KeyAt(f, keys, vals, hash, at, m, k);
    }
    forall i | 0 <= i < |f|
      ensures BucketOk(f, keys[..|f|], hash, at, m, i)
    {
      assert BucketOk(f, keys, hash, at, m, i);
    }
  }

  /** Lifting a key out of its old bucket. */
  lemma PickUp<K, V>(f: seq<Flag>, g: seq<Flag>, keys: seq<K>, vals: seq<V>, hash: K -> nat,
                     m: map<K, V>, home: map<K, nat>, at: map<K, nat>, i: nat)
    requires Moving(f, g, keys, vals, hash, m, home, at, {}) && i < |f| && f[i] == Live
    ensures keys[i] in m && vals[i] == m[keys[i]]
    ensures Moving(f[i := Deleted], g, keys, vals, hash, m, home, at, {keys[i]})
  {
    var f', key := f[i := Deleted], keys[i];
    assert OldBucketOk(f, g, keys, m, home, at, i) && Unmoved(f, keys, vals, m, home, key);
    forall k | k in m && k !in at && k != key
      ensures Unmoved(f', keys, vals, m, home, k)
    {
      assert Unmoved(f, keys, vals, m, home, k);
    }
    forall j | 0 <= j < |f'|
      ensures OldBucketOk(f', g, keys, m, home, at, j)
      ensures f'[j] == Live ==> keys[j] != key
    {
      assert OldBucketOk(f, g, keys, m, home, at, j);
    }
  }

  /** The new table, which `keys` and `vals` show, once the carried key has been placed. */
  lemma KeyPlaced<K, V>(g: seq<Flag>, keys: seq<K>, vals: seq<V>, hash: K -> nat, m: map<K, V>,
                        at: map<K, nat>, key: K, j: nat)
    requires |keys| == |vals| >= |g| > 0 && key in m && key !in at && Used(g) == |at|
    requires Path(g, hash(key), j) && g[Probe(hash(key), |g|, j)] == Empty
    requires forall k :: k in at ==> KeyAt(g, keys, vals, hash, at, m, k)
    requires forall i :: 0 <= i < |g| ==> NewBucketOk(g, keys, hash, at, i)
    ensures var x := Probe(hash(key), |g|, j);
            var g', keys', vals', at' := g[x := Live], keys[x := key], vals[x := m[key]], at[key := j];
            && (forall k :: k in at' ==> KeyAt(g', keys', vals', hash, at', m, k))
            && (forall i :: 0 <= i < |g'| ==> NewBucketOk(g', keys', hash, at', i))
            && Used(g') == |at'|
  {
    var x := Probe(hash(key), |g|, j);
    var g', keys', vals', at' := g[x := Live], keys[x := key], vals[x := m[key]], at[key := j];
    hide Probe;
    forall k | k in at'
      ensures KeyAt(g', keys', vals', hash, at', m, k)
    {
      if k != key { assert KeyAt(g, keys, vals, hash, at, m, k); }
    }
    forall i | 0 <= i < |g'|
      ensures NewBucketOk(g', keys', hash, at', i)
    {
      assert NewBucketOk(g, keys, hash, at, i);
    }
    UsedUpdate(g, x, Live);
  }

  /** Putting the carried key into a free bucket of the new table that nothing occupies. */
  lemma PutDown<K, V>(f: seq<Flag>, g: seq<Flag>, keys: seq<K>, vals: seq<V>, hash: K -> nat,
                      m: map<K, V>, home: map<K, nat>, at: map<K, nat>, key: K, j: nat)
    requires Moving(f, g, keys, vals, hash, m, home, at, {key})
    requires Path(g, hash(key), j) && g[Probe(hash(key), |g|, j)] == Empty
    requires var x := Probe(hash(key), |g|, j); x < |f| ==> f[x] != Live
    ensures var x := Probe(hash(key), |g|, j);
            Moving(f, g[x := Live], keys[x := key], vals[x := m[key]], hash, m, home, at[key := j], {})
  {
    var x := Probe(hash(key), |g|, j);
    var g', keys', vals', at' := g[x := Live], keys[x := key], vals[x := m[key]], at[key := j];
    KeyPlaced(g, keys, vals, hash, m, at, key, j);
    hide Probe, KeyAt, NewBucketOk;
    forall k | k in m && k !in at'
      ensures Unmoved(f, keys', vals', m, home, k)
    {
      assert Unmoved(f, keys, vals, m, home, k);
    }
    forall i | 0 <= i < |f|
      ensures OldBucketOk(f, g', keys', m, home, at', i)
    {
      assert OldBucketOk(f, g, keys, m, home, at, i);
    }
  }

  /** Kicking out: the carried key takes a bucket still live in the old table, whose key is carried on. */
  lemma KickOut<K, V>(f: seq<Flag>, g: seq<Flag>, keys: seq<K>, vals: seq<V>, hash: K -> nat,
                      m: map<K, V>, home: map<K, nat>, at: map<K, nat>, key: K, j: nat)
    requires Moving(f, g, keys, vals, hash, m, home, at, {key})
    requires Path(g, hash(key), j) && g[Probe(hash(key), |g|, j)] == Empty
    requires var x := Probe(hash(key), |g|, j); x < |f| && f[x] == Live
    ensures var x := Probe(hash(key), |g|, j);
            && keys[x] in m && vals[x] == m[keys[x]]
            && Moving(f[x := Deleted], g[x := Live], keys[x := key], vals[x := m[key]], hash,
                      m, home, at[key := j], {keys[x]})
  {
    var x := Probe(hash(key), |g|, j);
    var f', g', keys', vals', at' := f[x := Deleted], g[x := Live], keys[x := key], vals[x := m[key]], at[key := j];
    KeyPlaced(g, keys, vals, hash, m, at, key, j);
    hide Probe, KeyAt, NewBucketOk;
    assert OldBucketOk(f, g, keys, m, home, at, x) && Unmoved(f, keys, vals, m, home, keys[x]);
    forall k | k in m && k !in at' && k != keys[x]
      ensures Unmoved(f', keys', vals', m, home, k)
    {
      assert Unmoved(f, keys, vals, m, home, k);
    }
    forall i | 0 <= i < |f'|
      ensures OldBucketOk(f', g', keys', m, home, at', i)
      ensures f'[i] == Live ==> keys'[i] != keys[x]
    {
      assert OldBucketOk(f, g, keys, m, home, at, i);
    }
  }

  /** Once nothing is live in the old table, the new one stores the whole map. */
  lemma Moved<K, V>(f: seq<Flag>, g: seq<Flag>, keys: seq<K>, vals: seq<V>, hash: K -> nat,
                    m: map<K, V>, home: map<K, nat>, at: map<K, nat>)
    requires Moving(f, g, keys, vals, hash, m, home, at, {})
    requires forall i :: 0 <= i < |f| ==> f[i] != Live
    ensures Stored(g, keys, vals, hash, at, m) && Used(g) == |m|
  {
    forall k | k in m
      ensures k in at
    {
      assert k !in at ==> Unmoved(f, keys, vals, m, home, k);
    }
    assert at.Keys == m.Keys;
    assert |at| == |at.Keys| && |m| == |m.Keys|;
    forall i | 0 <= i < |g|
      ensures BucketOk(g, keys, hash, at, m, i)
    {
      assert NewBucketOk(g, keys, hash, at, i);
    }
  }

  /** The rehash starts with everything at home and an empty new table. */
  lemma StartMoving<K, V>(f: seq<Flag>, g: seq<Flag>, keys: seq<K>, vals: seq<V>, keys': seq<K>, vals': seq<V>,
                          hash: K -> nat, m: map<K, V>, at: map<K, nat>) returns (home: map<K, nat>)
    requires Stored(f, keys, vals, hash, at, m) && |keys| == |f|
    requires |keys'| == |vals'| && |keys'| >= |keys| && keys'[..|keys|] == keys && vals'[..|keys|] == vals
    requires g != [] && |keys'| >= |g| && forall i :: 0 <= i < |g| ==> g[i] == Empty
    ensures Moving(f, g, keys', vals', hash, m, home, map[], {})
  {
    UsedOfEmpty(g);
    assert forall k :: k in m ==> KeyAt(f, keys, vals, hash, at, m, k);
    home := map k | k in m :: if f == [] then 0 else Probe(hash(k), |f|, at[k]);
    forall k | k in m
      ensures Unmoved(f, keys', vals', m, home, k)
    {
      assert KeyAt(f, keys, vals, hash, at, m, k);
      assert keys'[..|keys|][home[k]] == keys[home[k]];
      assert vals'[..|keys|][home[k]] == vals[home[k]];
    }
    forall i | 0 <= i < |f|
      ensures OldBucketOk(f, g, keys', m, home, map[], i)
    {
      assert BucketOk(f, keys, hash, at, m, i);
      assert keys'[..|keys|][i] == keys[i];
    }
  }

  // ---------- The table ----------

  class Table<K(==, 0), V(0)> {
    const hash: K -> nat
    var nbucket: nat
    var nelem: nat
    var noccupied: nat
    var bound: nat
    var flags: array<Flag>
    var keys: array<K>
    var vals: array<V>

    /** The finite map the table stands for. */
    ghost var m: map<K, V>
    ghost var at: map<K, nat>

    ghost predicate Separate()
      reads this
    {
      flags as object != keys && flags as object != vals && keys as object != vals
    }

    ghost predicate Valid()
      reads this, flags, keys, vals
    {
      && Separate()
      && flags.Length == keys.Length == vals.Length == nbucket
      && (nbucket == 0 || IsPow2(nbucket))
      && bound == Bound(nbucket)
      && Stored(flags[..], keys[..], vals[..], hash, at, m)
      && nelem == |m|
      && noccupied == Used(flags[..])
      && noccupied <= bound
    }

    constructor (hash: K -> nat)
      ensures Valid() && m == map[] && this.hash == hash && fresh(flags) && fresh(keys) && fresh(vals)
    {
      this.hash := hash;
      nbucket, nelem, noccupied, bound := 0, 0, 0, 0;
      flags := new Flag[0];
      keys := new K[0];
      vals := new V[0];
      m, at := map[], map[];
    }

    method Clear()
      requires Valid()
      modifies this, flags
      ensures Valid() && m == map[] && nbucket == old(nbucket)
      ensures flags == old(flags) && keys == old(keys) && vals == old(vals)
    {
      forall i | 0 <= i < flags.Length { flags[i] := Empty; }
      nelem := 0;
      noccupied := 0;
      m, at := map[], map[];
      UsedOfEmpty(flags[..]);
    }

    /** `openhash_get`: the key's bucket, or `nbucket` when the key is absent. */
    method Get(key: K) returns (r: nat)
      requires Valid()
      ensures key in m <==> r < nbucket
      ensures key !in m ==> r == nbucket
      ensures key in m ==> flags[r] == Live && keys[r] == key && vals[r] == m[key]
    {
      if nbucket == 0 { return 0; }
      hide Stored, IsPow2, Probe, Passed, Used;
      var i; ghost var step;
      i, step := Seek(key);
      if flags[i] == Empty {
        AbsentWhenPathEnds(flags[..], keys[..], vals[..], hash, at, m, key, step);
        return nbucket;
      }
      PresentWhenMet(flags[..], keys[..], vals[..], hash, at, m, i);
      return i;
    }

    /** Its loop: as far as an empty bucket or the key. */
    method Seek(key: K) returns (i: nat, ghost step: nat)
      requires flags.Length == keys.Length == nbucket && IsPow2(nbucket) && Used(flags[..]) < nbucket
      ensures i < nbucket && i == Probe(hash(key), nbucket, step)
      ensures Passed(flags[..], keys[..], hash(key), key, step)
      ensures flags[i] == Empty || (flags[i] == Live && keys[i] == key)
    {
      hide IsPow2, And, Used;
      ghost var far := EmptyOnPath(flags[..], hash(key));
      var mask := nbucket - 1;
      step := 0;
      FirstIsMasked(hash(key), nbucket);
      i := And(hash(key), mask);
      var n, last := 0, i;
      assert Passed(flags[..], keys[..], hash(key), key, 0);
      hide Probe, Passed;
      while flags[i] != Empty && (flags[i] == Deleted || keys[i] != key)
        invariant step == n <= far && i == Probe(hash(key), nbucket, n) && last == Probe(hash(key), nbucket, 0)
        invariant Passed(flags[..], keys[..], hash(key), key, n)
        decreases far - n
      {
        PassOne(flags[..], keys[..], hash(key), key, n);
        NextIsMasked(hash(key), nbucket, n);
        n := n + 1;
        i := And(i + n, mask);
        step := n;
        NoEarlyReturn(hash(key), nbucket, n);
        if i == last { return; }
      }
    }

    /** `openhash_del`: deletes by bucket; anything but a live bucket is ignored. */
    method Del(x: nat)
      requires Valid() && x <= nbucket
      modifies this, flags
      ensures Valid() && nbucket == old(nbucket)
      ensures flags == old(flags) && keys == old(keys) && vals == old(vals)
      ensures m == if x < nbucket && old(flags[x]) == Live then old(m) - {keys[x]} else old(m)
    {
      hide Stored;
      if x != nbucket && flags[x] == Live {
        DeleteKeepsStored(flags[..], keys[..], vals[..], hash, at, m, x);
        flags[x] := Deleted;
        assert flags[..] == old(flags[..])[x := Deleted];
        nelem := nelem - 1;
        m, at := m - {keys[x]}, at - {keys[x]};
      }
    }

    /** Assignment through `openhash_value`. */
    method PutValue(x: nat, v: V)
      requires Valid() && x < nbucket && flags[x] == Live
      modifies this`m, vals
      ensures Valid() && m == old(m)[keys[x] := v]
    {
      PutKeepsStored(flags[..], keys[..], vals[..], hash, at, m, x, v);
      vals[x] := v;
      m := m[keys[x] := v];
    }

    /** The `realloc` of both arrays when the table grows. */
    method Extend(n: nat)
      requires Separate() && keys.Length == vals.Length <= n
      modifies this`keys, this`vals
      ensures fresh(keys) && fresh(vals) && Separate()
      ensures keys.Length == vals.Length == n
      ensures keys[..old(keys.Length)] == old(keys[..]) && vals[..old(vals.Length)] == old(vals[..])
    {
      var keys', vals' := new K[n], new V[n];
      forall i | 0 <= i < keys.Length { keys'[i] := keys[i]; }
      forall i | 0 <= i < vals.Length { vals'[i] := vals[i]; }
      keys, vals := keys', vals';
    }

    /** The `realloc` of both arrays after the table has shrunk. */
    method Shrink(n: nat)
      requires Separate() && n <= keys.Length == vals.Length
      modifies this`keys, this`vals
      ensures fresh(keys) && fresh(vals) && Separate()
      ensures keys.Length == vals.Length == n
      ensures keys[..] == old(keys[..n]) && vals[..] == old(vals[..n])
    {
      var keys', vals' := new K[n], new V[n];
      forall i | 0 <= i < n { keys'[i] := keys[i]; }
      forall i | 0 <= i < n { vals'[i] := vals[i]; }
      keys, vals := keys', vals';
    }

    /** The probe loop of the rehash: the first empty bucket of `g` on the path of `key`. */
    method FirstEmpty(g: array<Flag>, key: K) returns (i: nat, ghost step: nat)
      requires IsPow2(g.Length) && Used(g[..]) < g.Length
      ensures i < g.Length && g[i] == Empty
      ensures i == Probe(hash(key), g.Length, step) && Path(g[..], hash(key), step)
    {
      ghost var far := EmptyOnPath(g[..], hash(key));
      hide And, IsPow2;
      var mask := g.Length - 1;
      var n := 0;
      FirstIsMasked(hash(key), g.Length);
      i := And(hash(key), mask);
      while g[i] != Empty
        invariant n <= far && i < g.Length && i == Probe(hash(key), g.Length, n)
        invariant Path(g[..], hash(key), n)
        decreases far - n
      {
        NextIsMasked(hash(key), g.Length, n);
        n := n + 1;
        i := And(i + n, mask);
      }
      step := n;
    }

    /** Exchanges the carried element with the one in bucket `i`, which leaves the old table. */
    method SwapInto(i: nat, key: K, val: V) returns (key': K, val': V)
      requires Separate() && i < flags.Length && i < keys.Length == vals.Length
      modifies flags, keys, vals
      ensures key' == old(keys[i]) && val' == old(vals[i])
      ensures flags[..] == old(flags[..])[i := Deleted]
      ensures keys[..] == old(keys[..])[i := key] && vals[..] == old(vals[..])[i := val]
    {
      key', keys[i] := keys[i], key;
      val', vals[i] := vals[i], val;
      flags[i] := Deleted;
    }

    method StoreInto(i: nat, key: K, val: V)
      requires Separate() && i < keys.Length == vals.Length
      modifies keys, vals
      ensures keys[..] == old(keys[..])[i := key] && vals[..] == old(vals[..])[i := val]
    {
      keys[i] := key;
      vals[i] := val;
    }

    /** The carried element takes bucket `i` of the new table and the one living there is carried on. */
    method Kick(g: array<Flag>, i: nat, key: K, val: V, ghost step: nat, ghost home: map<K, nat>,
                ghost at0: map<K, nat>)
      returns (key': K, val': V)
      requires g != flags && g as object != keys && g as object != vals && Separate()
      requires flags.Length == nbucket && g.Length > 0 && i == Probe(hash(key), g.Length, step)
      requires Path(g[..], hash(key), step) && g[i] == Empty && i < nbucket && flags[i] == Live
      requires Moving(flags[..], g[..], keys[..], vals[..], hash, m, home, at0, {key}) && val == m[key]
      modifies g, flags, keys, vals
      ensures Moving(flags[..], g[..], keys[..], vals[..], hash, m, home, at0[key := step], {key'}) && val' == m[key']
      ensures NoneRevived(old(flags[..]), flags[..])
    {
      KickOut(flags[..], g[..], keys[..], vals[..], hash, m, home, at0, key, step);
      g[i] := Live;
      key', val' := SwapInto(i, key, val);
      assert g[..] == old(g[..])[i := Live];
    }

    /** The carried element takes bucket `i` of the new table, which holds nothing of the old one. */
    method Put(g: array<Flag>, i: nat, key: K, val: V, ghost step: nat, ghost home: map<K, nat>, ghost at0: map<K, nat>)
      requires g != flags && g as object != keys && g as object != vals && Separate()
      requires flags.Length == nbucket && g.Length > 0 && i == Probe(hash(key), g.Length, step)
      requires Path(g[..], hash(key), step) && g[i] == Empty && (i < nbucket ==> flags[i] != Live)
      requires Moving(flags[..], g[..], keys[..], vals[..], hash, m, home, at0, {key}) && val == m[key]
      modifies g, keys, vals
      ensures Moving(flags[..], g[..], keys[..], vals[..], hash, m, home, at0[key := step], {})
    {
      PutDown(flags[..], g[..], keys[..], vals[..], hash, m, home, at0, key, step);
      g[i] := Live;
      StoreInto(i, key, val);
      assert g[..] == old(g[..])[i := Live];
    }

    /** One turn of the inner loop: the carried element goes down, perhaps kicking out another. */
    method PlaceOne(g: array<Flag>, key: K, val: V, ghost home: map<K, nat>, ghost at0: map<K, nat>)
      returns (placed: bool, key': K, val': V, ghost at': map<K, nat>)
      requires g != flags && g as object != keys && g as object != vals && Separate()
      requires IsPow2(g.Length) && flags.Length == nbucket && Used(g[..]) < g.Length
      requires Moving(flags[..], g[..], keys[..], vals[..], hash, m, home, at0, {key}) && val == m[key]
      modifies g, flags, keys, vals
      ensures placed ==> Moving(flags[..], g[..], keys[..], vals[..], hash, m, home, at', {})
      ensures !placed ==> Moving(flags[..], g[..], keys[..], vals[..], hash, m, home, at', {key'}) && val' == m[key']
      ensures key in at' && at' == at0[key := at'[key]]
      ensures NoneRevived(old(flags[..]), flags[..])
    {
      var i; ghost var step;
      i, step := FirstEmpty(g, key);
      at' := at0[key := step];
      placed := !(i < nbucket && flags[i] == Live);
      if !placed {
        key', val' := Kick(g, i, key, val, step, home, at0);
      } else {
        Put(g, i, key, val, step, home, at0);
        key', val' := key, val;
      }
    }

    /** The inner loop of the rehash: places the carried key, then any key it kicks out, and so on. */
    method Settle(g: array<Flag>, key0: K, val0: V, ghost home: map<K, nat>, ghost at0: map<K, nat>)
      returns (ghost at': map<K, nat>)
      requires g != flags && g as object != keys && g as object != vals && Separate()
      requires IsPow2(g.Length) && flags.Length == nbucket
      requires Moving(flags[..], g[..], keys[..], vals[..], hash, m, home, at0, {key0}) && val0 == m[key0]
      requires |m| < g.Length
      modifies g, flags, keys, vals
      ensures Moving(flags[..], g[..], keys[..], vals[..], hash, m, home, at', {})
      ensures NoneRevived(old(flags[..]), flags[..])
    {
      var key, val := key0, val0;
      at' := at0;
      var placed := false;
      while !placed
        invariant placed ==> Moving(flags[..], g[..], keys[..], vals[..], hash, m, home, at', {})
        invariant !placed ==> Moving(flags[..], g[..], keys[..], vals[..], hash, m, home, at', {key}) && val == m[key]
        invariant NoneRevived(old(flags[..]), flags[..])
        decreases m.Keys - at'.Keys
      {
        CarriedIsMissing(at', m, key);
        placed, key, val, at' := PlaceOne(g, key, val, home, at');
      }
    }

    /** Takes the element of bucket `j` out of the old table. */
    method TakeOut(g: array<Flag>, j: nat, ghost home: map<K, nat>, ghost at0: map<K, nat>) returns (key: K, val: V)
      requires g != flags && Separate() && j < flags.Length && flags[j] == Live
      requires Moving(flags[..], g[..], keys[..], vals[..], hash, m, home, at0, {})
      modifies flags
      ensures Moving(flags[..], g[..], keys[..], vals[..], hash, m, home, at0, {key}) && val == m[key]
      ensures flags[j] != Live && NoneRevived(old(flags[..]), flags[..])
    {
      PickUp(flags[..], g[..], keys[..], vals[..], hash, m, home, at0, j);
      key, val := keys[j], vals[j];
      flags[j] := Deleted;
      assert flags[..] == old(flags[..])[j := Deleted];
    }

    /** The outer loop of the rehash. */
    method MoveAll(g: array<Flag>, ghost home: map<K, nat>) returns (ghost at': map<K, nat>)
      requires g != flags && g as object != keys && g as object != vals && Separate()
      requires IsPow2(g.Length) && flags.Length == nbucket
      requires Moving(flags[..], g[..], keys[..], vals[..], hash, m, home, map[], {})
      requires |m| < g.Length
      modifies g, flags, keys, vals
      ensures Stored(g[..], keys[..], vals[..], hash, at', m) && Used(g[..]) == |m|
    {
      at' := map[];
      var j := 0;
      while j != nbucket
        invariant j <= nbucket
        invariant Moving(flags[..], g[..], keys[..], vals[..], hash, m, home, at', {})
        invariant forall i :: 0 <= i < j ==> flags[..][i] != Live
      {
        if flags[j] == Live {
          var key, val := TakeOut(g, j, home, at');
          at' := Settle(g, key, val, home, at');
        }
        j := j + 1;
      }
      Moved(flags[..], g[..], keys[..], vals[..], hash, m, home, at');
    }

    /** The table moves into `g`: grow the arrays first, rehash, or shrink them last. */
    method MoveInto(g: array<Flag>)
      requires Valid() && IsPow2(g.Length) && nelem < Bound(g.Length)
      requires g != flags && g as object != keys && g as object != vals
      requires forall i :: 0 <= i < g.Length ==> g[i] == Empty
      modifies this`keys, this`vals, this`at, g, flags, keys, vals
      ensures keys.Length == vals.Length == g.Length
      ensures g as object != keys && g as object != vals && Separate()
      ensures Stored(g[..], keys[..], vals[..], hash, at, m) && Used(g[..]) == |m|
      ensures (keys == old(keys) || fresh(keys)) && (vals == old(vals) || fresh(vals))
    {
      hide Stored, Moving;
      ghost var f0, keys0, vals0 := flags[..], keys[..], vals[..];
      if nbucket < g.Length { Extend(g.Length); }
      ghost var home := StartMoving(f0, g[..], keys0, vals0, keys[..], vals[..], hash, m, at);
      at := MoveAll(g, home);
      PrefixKeepsStored(g[..], keys[..], vals[..], hash, at, m);
      if nbucket > g.Length { Shrink(g.Length); }
    }

    /** `openhash_resize`: 0 on success, -1 (nothing changed) when the new size is too small.
        The elements move within the shared key and value arrays. */
    method Resize(nbucket': nat) returns (r: int)
      requires Valid() && (IsPow2(nbucket') || nelem >= Bound(nbucket'))
      modifies this, flags, keys, vals
      ensures Valid() && m == old(m)
      ensures r == if old(nelem) >= Bound(nbucket') then -1 else 0
      ensures r == 0 ==> nbucket == nbucket' && noccupied == nelem
      ensures r == 0 ==> fresh(flags) && (keys == old(keys) || fresh(keys)) && (vals == old(vals) || fresh(vals))
      ensures r == -1 ==> unchanged(this) && unchanged(flags) && unchanged(keys) && unchanged(vals)
    {
      if nelem >= Bound(nbucket') { return -1; }
      var g := new Flag[nbucket'](_ => Empty);
      MoveInto(g);
      flags := g;
      nbucket := nbucket';
      noccupied := nelem;
      bound := Bound(nbucket);
      return 0;
    }

    /** `resize` of the C++ table: sizes that are not a power of two are rejected as well. */
    method ResizeTo(n: nat) returns (r: int)
      requires Valid()
      modifies this, flags, keys, vals
      ensures Valid() && m == old(m)
      ensures r == if (n > 0 && !IsPow2(n)) || old(nelem) >= Bound(n) then -1 else 0
      ensures r == 0 ==> nbucket == n && noccupied == nelem
      ensures r == 0 ==> fresh(flags) && (keys == old(keys) || fresh(keys)) && (vals == old(vals) || fresh(vals))
      ensures r == -1 ==> unchanged(this) && unchanged(flags) && unchanged(keys) && unchanged(vals)
    {
      hide IsPow2;
      if n > 0 {
        PowerOfTwoTest(n);
        if And(n, n - 1) != 0 { return -1; }
      }
      r := Resize(n);
    }

    /** The search of `openhash_set`: the key's live bucket, or else the bucket it is to take: the last
        tombstone met on its path if any, else the empty bucket that ends the path after `e` steps. */
    method FindSite(key: K) returns (x: nat, ghost j: nat, ghost e: nat)
      requires Valid() && noccupied < bound
      ensures x < nbucket && x == Probe(hash(key), nbucket, j) && Path(flags[..], hash(key), j)
      ensures key in m <==> flags[x] == Live
      ensures key in m ==> keys[x] == key
      ensures key !in m ==> LastTombstone(flags[..], hash(key), j, e) && flags[Probe(hash(key), nbucket, e)] == Empty
    {
      hide Stored, IsPow2, And;
      ghost var h := hash(key);
      ghost var far := EmptyOnPath(flags[..], h);
      var site: nat := nbucket;
      x := site;
      var mask := nbucket - 1;
      FirstIsMasked(h, nbucket);
      var i := And(hash(key), mask);
      assert i == Probe(h, nbucket, 0) && Path(flags[..], h, 0) && Passed(flags[..], keys[..], h, key, 0);
      if flags[i] == Empty {
        j := 0;
        AbsentWhenPathEnds(flags[..], keys[..], vals[..], hash, at, m, key, 0);
        return i, 0, 0;
      }
      var last := i;
      var step := 0;
      ghost var siteStep := 0;
      NoTombstone(flags[..], h);
      hide Probe, Path, Passed, LastTombstone;
      while flags[i] != Empty && (flags[i] == Deleted || keys[i] != key)
        invariant LastTombstone(flags[..], h, if site != nbucket then siteStep else step, step)
        invariant step <= far && i == Probe(h, nbucket, step) && last == Probe(h, nbucket, 0)
        invariant Path(flags[..], h, step)
        invariant Passed(flags[..], keys[..], h, key, step)
        invariant site != nbucket ==>
                    site < nbucket && siteStep < step && site == Probe(h, nbucket, siteStep) && flags[site] == Deleted
        decreases far - step
      {
        TombstoneStep(flags[..], h, if site != nbucket then siteStep else step, step);
        if flags[i] == Deleted { site, siteStep := i, step; }
        PassOne(flags[..], keys[..], h, key, step);
        NextIsMasked(h, nbucket, step);
        step := step + 1;
        i := And(i + step, mask);
        NoEarlyReturn(h, nbucket, step);
        if i == last {
          x := site;
          break;
        }
      }
      if flags[i] == Empty {
        AbsentWhenPathEnds(flags[..], keys[..], vals[..], hash, at, m, key, step);
      } else {
        PresentWhenMet(flags[..], keys[..], vals[..], hash, at, m, i);
      }
      if x == nbucket {
        if flags[i] == Empty && site != nbucket {
          x, j := site, siteStep;
          PathPrefix(flags[..], h, siteStep, step);
        } else {
          x, j := i, step;
        }
        e := step;
      }
    }

    /** The growth that `openhash_set` may start with always succeeds and makes room. */
    method Grow()
      requires Valid()
      modifies this, flags, keys, vals
      ensures Valid() && m == old(m) && noccupied < bound
      ensures old(noccupied) < old(bound) ==> unchanged(this) && unchanged(flags) && unchanged(keys) && unchanged(vals)
      ensures old(noccupied) >= old(bound) ==>
                nbucket == (if old(nbucket) == 0 then 2 else 2 * old(nbucket)) && noccupied == nelem
      ensures fresh(flags) || flags == old(flags)
      ensures fresh(keys) || keys == old(keys)
      ensures fresh(vals) || vals == old(vals)
    {
      if noccupied >= bound {
        var target := if nbucket != 0 then 2 * nbucket else 2;
        Doubling(nbucket);
        LiveCount(flags[..], keys[..], vals[..], hash, at, m);
        var r := Resize(target);
      }
    }

    /** Bucket `x`, not live, takes the key. */
    method Occupy(x: nat, key: K, ghost j: nat) returns (ret: InsertCode)
      requires Valid() && noccupied < bound && key !in m
      requires x < nbucket && x == Probe(hash(key), nbucket, j) && Path(flags[..], hash(key), j) && flags[x] != Live
      modifies this`m, this`at, this`nelem, this`noccupied, flags, keys
      ensures Valid() && m == old(m)[key := vals[x]]
      ensures flags[x] == Live && keys[x] == key
      ensures ret == if old(flags[x]) == Empty then InsNew else InsDel
      ensures noccupied == old(noccupied) + if ret == InsNew then 1 else 0
      ensures ret != InsErr
    {
      hide Stored, Path;
      InsertKeepsStored(flags[..], keys[..], vals[..], hash, at, m, key, j);
      if flags[x] == Empty {
        noccupied := noccupied + 1;
        ret := InsNew;
      } else {
        ret := InsDel;
      }
      keys[x] := key;
      flags[x] := Live;
      assert flags[..] == old(flags[..])[x := Live] && keys[..] == old(keys[..])[x := key];
      nelem := nelem + 1;
      m, at := m[key := vals[x]], at[key := j];
    }

    /** `openhash_set`: the bucket of the key, which is added when it was absent; its value is then
        whatever the bucket last held. */
    method Set(key: K) returns (x: nat, ret: InsertCode)
      requires Valid()
      modifies this, flags, keys, vals
      ensures Valid() && x < nbucket && flags[x] == Live && keys[x] == key
      ensures ret == InsErr <==> key in old(m)
      ensures m == if key in old(m) then old(m) else old(m)[key := vals[x]]
      ensures nbucket == if old(noccupied) < old(bound) then old(nbucket)
                         else if old(nbucket) == 0 then 2 else 2 * old(nbucket)
      ensures noccupied == (if old(noccupied) < old(bound) then old(noccupied) else old(nelem)) +
                           if ret == InsNew then 1 else 0
      ensures fresh(flags) || flags == old(flags)
      ensures fresh(keys) || keys == old(keys)
      ensures fresh(vals) || vals == old(vals)
    {
      Grow();
      ghost var j, e;
      x, j, e := FindSite(key);
      if flags[x] != Live {
        ret := Occupy(x, key, j);
      } else {
        ret := InsErr;
      }
    }
  }
}
