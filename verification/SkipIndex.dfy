/** Index arithmetic behind the skiplist of ThirdParty/Minizip/skipset.h.

    A skiplist is described by the heights of its nodes in list order; index 0
    is the head.  Level `i` links exactly the nodes higher than `i`. */
module SkipIndex {

  /** First index at or after `q` whose node reaches level `i`; 0 (the head) when there is none. */
  function Scan(hts: seq<nat>, q: nat, i: nat): (r: nat)
    requires 1 <= q
    ensures r == 0 || (q <= r < |hts| && hts[r] > i)
    ensures forall t :: q <= t < (if r == 0 then |hts| else r) ==> hts[t] <= i
    decreases |hts| - q
  {
    if q >= |hts| then 0 else if hts[q] > i then q else Scan(hts, q + 1, i)
  }

  /** Successor of node `p` on level `i`. */
  function Next(hts: seq<nat>, p: nat, i: nat): nat
  {
    Scan(hts, p + 1, i)
  }

  /** Last node strictly before `q` that reaches level `i`. */
  function Last(hts: seq<nat>, q: nat, i: nat): (r: nat)
    requires 1 <= q <= |hts| && hts[0] > i
    ensures r < q && hts[r] > i
    ensures forall t :: r < t < q ==> hts[t] <= i
    decreases q
  {
    if hts[q - 1] > i then q - 1 else Last(hts, q - 1, i)
  }

  function Inserted<T>(s: seq<T>, q: nat, x: T): (r: seq<T>)
    requires q <= |s|
    ensures |r| == |s| + 1 && r[q] == x
    ensures forall p :: 0 <= p < q ==> r[p] == s[p]
    ensures forall p :: q < p < |r| ==> r[p] == s[p - 1]
  {
    s[..q] + [x] + s[q..]
  }

  lemma InsertedTail<T>(s: seq<T>, q: nat, x: T)
    requires 1 <= q <= |s|
    ensures Inserted(s, q, x)[1..] == Inserted(s[1..], q - 1, x)
  {
  }

  /** Where an old index ends up after an insertion at `q`. */
  function Shift(q: nat, p: nat): nat
  {
    if p < q then p else p + 1
  }

  /** Scan is determined by its two postconditions. */
  lemma ScanUnique(hts: seq<nat>, q: nat, i: nat, r: nat)
    requires 1 <= q
    requires r == 0 || (q <= r < |hts| && hts[r] > i)
    requires forall t :: q <= t < (if r == 0 then |hts| else r) ==> hts[t] <= i
    ensures Scan(hts, q, i) == r
  {
    var s := Scan(hts, q, i);
    if r != 0 && s != 0 {
      assert s == r || s < r || r < s;
    }
  }

  lemma LastUnique(hts: seq<nat>, q: nat, i: nat, r: nat)
    requires 1 <= q <= |hts| && hts[0] > i
    requires r < q && hts[r] > i
    requires forall t :: r < t < q ==> hts[t] <= i
    ensures Last(hts, q, i) == r
  {
    var s := Last(hts, q, i);
    assert s == r || s < r || r < s;
  }

  /** A node before `q` is the last one on its level exactly when its successor is not before `q`. */
  lemma LastIffNextBeyond(hts: seq<nat>, q: nat, p: nat, i: nat)
    requires 1 <= q <= |hts| && p < |hts| && hts[0] > i && hts[p] > i
    ensures p == Last(hts, q, i) <==> p < q && !(0 < Next(hts, p, i) < q)
    ensures p == Last(hts, q, i) ==> Next(hts, p, i) == Scan(hts, q, i)
  {
    var n := Next(hts, p, i);
    var l := Last(hts, q, i);
    if p < q && !(0 < n < q) {
      LastUnique(hts, q, i, p);
    }
    if p == l {
      assert !(0 < n < q);
      ScanUnique(hts, q, i, n);
    }
  }

  /** A link that does not go past the new node, or is on a level that it does not reach, stays. */
  lemma NextKept(hts: seq<nat>, q: nat, h: nat, p: nat, i: nat)
    requires 1 <= q <= |hts| && p < |hts| && hts[0] > i && hts[p] > i && !(i < h && p == Last(hts, q, i))
    ensures Next(Inserted(hts, q, h), Shift(q, p), i) == Shift'(q, Next(hts, p, i))
  {
    hide Last;
    var hts' := Inserted(hts, q, h);
    var n := Next(hts, p, i);
    LastIffNextBeyond(hts, q, p, i);
    var r := Shift'(q, n);
    var from := Shift(q, p) + 1;
    forall t | from <= t < (if r == 0 then |hts'| else r)
      ensures hts'[t] <= i
    {
      if t < q {
        assert hts'[t] == hts[t];
      } else if t > q {
        assert hts'[t] == hts[t - 1];
      }
    }
    assert r != 0 ==> hts'[r] > i;
    ScanUnique(hts', from, i, r);
  }

  /** Splicing a node of height `h` in at `q` redirects, on each level below `h`, exactly the
      predecessor found by Last, and the new node takes over that predecessor's link. */
  lemma NextAfterInsert(hts: seq<nat>, q: nat, h: nat, p: nat, i: nat)
    requires 1 <= q <= |hts| && p < |hts| && hts[0] > i && hts[p] > i
    ensures Next(Inserted(hts, q, h), Shift(q, p), i)
         == if i < h && p == Last(hts, q, i) then q else Shift'(q, Next(hts, p, i))
  {
    if i < h && p == Last(hts, q, i) {
      LastIffNextBeyond(hts, q, p, i);
      assert Inserted(hts, q, h)[q] == h;
      ScanUnique(Inserted(hts, q, h), p + 1, i, q);
    } else {
      NextKept(hts, q, h, p, i);
    }
  }

  /** The new node's own successor. */
  lemma NextOfInserted(hts: seq<nat>, q: nat, h: nat, i: nat)
    requires 1 <= q <= |hts| && hts[0] > i
    ensures Next(Inserted(hts, q, h), q, i) == Shift'(q, Next(hts, Last(hts, q, i), i))
  {
    var hts' := Inserted(hts, q, h);
    var l := Last(hts, q, i);
    LastIffNextBeyond(hts, q, l, i);
    var n := Scan(hts, q, i);
    var r := Shift'(q, n);
    forall t | q + 1 <= t < (if r == 0 then |hts'| else r)
      ensures hts'[t] <= i
    {
      assert hts'[t] == hts[t - 1];
    }
    ScanUnique(hts', q + 1, i, r);
  }

  /** Shift for link targets, where 0 stands for the head and never moves. */
  function Shift'(q: nat, p: nat): nat
  {
    if p == 0 then 0 else Shift(q, p)
  }

  /** Every node is on level 0 and none is higher than the head. */
  ghost predicate Heights(hts: seq<nat>)
  {
    |hts| >= 1 && forall t :: 0 <= t < |hts| ==> 1 <= hts[t] <= hts[0]
  }

  /** Raising only the head leaves every existing link where it was, and the new levels are empty. */
  lemma NextAfterHeadGrows(hts: seq<nat>, top: nat, p: nat, i: nat)
    requires p < |hts| && Heights(hts)
    requires hts[0] <= top
    ensures Next(hts[0 := top], p, i) == Next(hts, p, i)
    ensures hts[0] <= i ==> Next(hts, p, i) == 0
  {
    ScanUnique(hts[0 := top], p + 1, i, Next(hts, p, i));
  }

  lemma LastAfterHeadGrows(hts: seq<nat>, top: nat, q: nat, i: nat)
    requires 1 <= q <= |hts| && Heights(hts)
    requires hts[0] <= top && i < top
    ensures Last(hts[0 := top], q, i) == if i < hts[0] then Last(hts, q, i) else 0
  {
    LastUnique(hts[0 := top], q, i, if i < hts[0] then Last(hts, q, i) else 0);
  }

  /** The places met by following the links of level `i` from place `p` until the head returns. */
  function Walk(hts: seq<nat>, p: nat, i: nat): (r: seq<nat>)
    decreases |hts| - p
  {
    var n := Next(hts, p, i);
    if n == 0 then [] else [n] + Walk(hts, n, i)
  }

  /** Following level `i` meets exactly the nodes higher than `i`, in list order. */
  lemma {:induction false} WalkIsLevel(hts: seq<nat>, p: nat, i: nat)
    ensures forall t :: t in Walk(hts, p, i) <==> p < t < |hts| && hts[t] > i
    ensures forall a, b :: 0 <= a < b < |Walk(hts, p, i)| ==> Walk(hts, p, i)[a] < Walk(hts, p, i)[b]
    decreases |hts| - p
  {
    var n := Next(hts, p, i);
    if n != 0 {
      WalkIsLevel(hts, n, i);
      var rest := Walk(hts, n, i);
      forall a, b | 0 <= a < b <= |rest|
        ensures ([n] + rest)[a] < ([n] + rest)[b]
      {
        assert rest[b - 1] in rest;
      }
    }
  }

  /** Hence each level only skips nodes of the level below, and level 0 skips none. */
  lemma LevelsNest(hts: seq<nat>, i: nat)
    requires Heights(hts)
    ensures forall t :: t in Walk(hts, 0, i + 1) ==> t in Walk(hts, 0, i)
    ensures forall t :: 1 <= t < |hts| <==> t in Walk(hts, 0, 0)
  {
    WalkIsLevel(hts, 0, i + 1);
    WalkIsLevel(hts, 0, i);
    WalkIsLevel(hts, 0, 0);
  }

  // ---- keys -------------------------------------------------------------

  ghost predicate Flips<K>(cmp: (K, K) -> int, a: K, b: K)
  {
    cmp(a, b) < 0 <==> cmp(b, a) > 0
  }

  ghost predicate Chains<K>(cmp: (K, K) -> int, a: K, b: K, c: K)
  {
    cmp(a, b) <= 0 && cmp(b, c) <= 0 ==> cmp(a, c) <= 0
  }

  /** What the comparison supplied by the application has to be: a total order on keys,
      up to the equivalence "compares equal". */
  ghost predicate TotalOrder<K(!new)>(cmp: (K, K) -> int)
  {
    && (forall a, b :: Flips(cmp, a, b))
    && (forall a, b, c :: Chains(cmp, a, b, c))
  }

  ghost predicate Below<K>(cmp: (K, K) -> int, keys: seq<K>, p: nat, q: nat)
    requires p < |keys| && q < |keys|
  {
    cmp(keys[p], keys[q]) < 0
  }

  ghost predicate StrictlySorted<K(!new)>(cmp: (K, K) -> int, keys: seq<K>)
  {
    forall p: nat, q: nat :: p < q < |keys| ==> Below(cmp, keys, p, q)
  }

  ghost predicate Member<K(!new)>(cmp: (K, K) -> int, keys: seq<K>, k: K)
  {
    exists p :: 0 <= p < |keys| && cmp(keys[p], k) == 0
  }

  /** Number of keys below `k`. */
  function Rank<K(!new)>(cmp: (K, K) -> int, keys: seq<K>, k: K): (r: nat)
    ensures r <= |keys|
  {
    if keys == [] || cmp(keys[0], k) >= 0 then 0 else
      1 + Rank(cmp, keys[1..], k)
  }

  lemma {:induction false} RankIs<K(!new)>(cmp: (K, K) -> int, keys: seq<K>, k: K)
    ensures forall p :: 0 <= p < Rank(cmp, keys, k) ==> cmp(keys[p], k) < 0
    ensures Rank(cmp, keys, k) < |keys| ==> cmp(keys[Rank(cmp, keys, k)], k) >= 0
    decreases |keys|
  {
    if keys != [] && cmp(keys[0], k) < 0 {
      RankIs(cmp, keys[1..], k);
    }
  }

  lemma RankSplits<K(!new)>(cmp: (K, K) -> int, keys: seq<K>, k: K)
    requires TotalOrder(cmp) && StrictlySorted(cmp, keys)
    ensures forall p :: 0 <= p < Rank(cmp, keys, k) ==> cmp(keys[p], k) < 0
    ensures forall p :: Rank(cmp, keys, k) <= p < |keys| ==> cmp(keys[p], k) >= 0
    ensures forall p :: Rank(cmp, keys, k) < p < |keys| ==> cmp(keys[p], k) > 0
    ensures Member(cmp, keys, k)
       <==> Rank(cmp, keys, k) < |keys| && cmp(keys[Rank(cmp, keys, k)], k) == 0
  {
    var r := Rank(cmp, keys, k);
    RankIs(cmp, keys, k);
    forall p | r < p < |keys|
      ensures cmp(keys[p], k) > 0
    {
      assert Below(cmp, keys, r, p);
      assert Flips(cmp, keys[r], k) && Flips(cmp, k, keys[r]) && Flips(cmp, keys[r], keys[p]);
      assert Chains(cmp, keys[p], k, keys[r]);
    }
  }

  lemma InsertKeepsSorted<K(!new)>(cmp: (K, K) -> int, keys: seq<K>, k: K)
    requires TotalOrder(cmp) && StrictlySorted(cmp, keys) && !Member(cmp, keys, k)
    ensures StrictlySorted(cmp, Inserted(keys, Rank(cmp, keys, k), k))
  {
    var r := Rank(cmp, keys, k);
    var keys' := Inserted(keys, r, k);
    RankSplits(cmp, keys, k);
    forall p: nat, q: nat | p < q < |keys'|
      ensures Below(cmp, keys', p, q)
    {
      if p == r {
        assert cmp(keys[q - 1], k) > 0;
        assert Flips(cmp, k, keys[q - 1]);
      } else if q != r {
        assert Below(cmp, keys, if p < r then p else p - 1, if q < r then q else q - 1);
      }
    }
  }

  lemma MembersAfterInsert<K(!new)>(cmp: (K, K) -> int, keys: seq<K>, r: nat, k: K, x: K)
    requires r <= |keys|
    ensures Member(cmp, Inserted(keys, r, k), x) <==> Member(cmp, keys, x) || cmp(k, x) == 0
  {
    var keys' := Inserted(keys, r, k);
    if p :| 0 <= p < |keys| && cmp(keys[p], x) == 0 {
      assert keys'[Shift(r, p)] == keys[p];
    }
    assert keys'[r] == k;
    if p :| 0 <= p < |keys'| && cmp(keys'[p], x) == 0 {
      assert p < r ==> keys[p] == keys'[p];
      assert p > r ==> keys[p - 1] == keys'[p];
    }
  }
}
