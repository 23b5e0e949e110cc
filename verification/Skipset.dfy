/** The skiplist set of ThirdParty/Minizip/skipset.h: nodes on the heap, a scratch `path`
    node, a lazily growing depth, and a longjmp out of any allocation that fails.

    Allocation number k succeeds exactly when `grant(k)`; random words are an argument of
    Insert.  Both are arbitrary, so every contract below holds for every failure pattern
    and every random stream.  The realloc'd array right[] of a node is a sequence field. */
module Skipset {
  import opened Numbers
  import opened SkipIndex
  import opened SkipRandom

  /** NoMemory is the longjmp(set->env, ENOMEM); Done carries the C return value. */
  datatype Outcome = NoMemory | Done(flag: bool)

  /** Array sizes are stored in 16 bits; up to this many levels they cannot overflow. */
  const MAX_LEVELS: nat := 16384

  class Node<Key(0)> {
    var key: Key
    var fill: nat
    var right: seq<Node?<Key>>     // |right| is the field `size`; empty when right == NULL

    /** set_node() once its allocation succeeded; the key is left uninitialized. */
    constructor ()
      ensures fill == 0 && right == []
    {
      fill, right := 0, [];
    }
  }

  class SkipSet<Key(0, !new)> {
    const cmp: (Key, Key) -> int
    const grant: nat -> bool
    var asked: nat

    var head: Node?<Key>
    var path: Node?<Key>
    var node: Node?<Key>
    var depth: int
    var ran: nat
    var allocs: int

    ghost var nodes: set<Node<Key>>     // node blocks allocated and not yet freed
    ghost var arrays: set<Node<Key>>    // owners of the live right[] blocks
    ghost var leaked: set<Node<Key>>    // live nodes that no pointer reaches any more
    ghost var dropped: seq<Key>         // keys handed to set_drop, in order

    ghost var all: seq<Node<Key>>       // head, then the nodes in list order
    ghost var hts: seq<nat>
    ghost var keys: seq<Key>

    static ghost function One(n: Node?<Key>): set<Node<Key>>
    {
      if n == null then {} else {n}
    }

    /** A node has a right[] block exactly when its size is positive; allocs counts all blocks. */
    ghost predicate Counted()
      reads this`nodes, this`arrays, this`allocs, nodes`right
    {
      && arrays <= nodes
      && (forall n :: n in nodes ==> (n in arrays <==> n.right != []))
      && allocs == |nodes| + |arrays|
    }

    /** Every live node is accounted for: the list, path, the node under construction, leaks. */
    ghost predicate Owned()
      reads this`nodes, this`leaked, this`all, this`head, this`path, this`node
    {
      && (forall n :: n in all ==> n in nodes)
      && (forall n :: n in leaked ==> n in nodes)
      && (head != null ==> head in nodes) && (path != null ==> path in nodes) && (node != null ==> node in nodes)
      && (forall n :: n in nodes ==> n in all || n == head || n == path || n == node || n in leaked)
      && (forall n :: n in leaked ==> n !in all && n != head && n != path && n != node)
    }

    ghost predicate Lengths()
      reads this`all, this`hts, this`keys
    {
      |all| == |hts| == |keys| + 1
    }

    static ghost predicate NodeAt(ns: seq<Node<Key>>, hs: seq<nat>, ks: seq<Key>, p: nat)
      requires |ns| == |hs| == |ks| + 1 && p < |ns|
      reads ns[p]
    {
      && ns[p].fill == hs[p] <= |ns[p].right|
      && (p > 0 ==> ns[p].key == ks[p - 1])
    }

    /** Level i of the list links the nodes higher than i, in order, and returns to the head. */
    static ghost predicate LinkAt(ns: seq<Node<Key>>, hs: seq<nat>, p: nat, i: nat)
      requires |ns| == |hs| && p < |ns|
      reads ns[p]
    {
      i < |ns[p].right| && ns[p].right[i] == ns[Next(hs, p, i)]
    }

    static ghost predicate Differ(ns: seq<Node<Key>>, p: nat, q: nat)
      requires p < |ns| && q < |ns|
    {
      ns[p] != ns[q]
    }

    /** The list proper: heights, fields, links. */
    ghost predicate Listed()
      reads this`all, this`hts, this`keys, this`head, this`depth, all
    {
      && Lengths() && Heights(hts)
      && (forall p: nat :: p < |all| ==> NodeAt(all, hts, keys, p))
      && (forall p: nat, i: nat :: p < |all| && i < hts[p] ==> LinkAt(all, hts, p, i))
      && (forall p: nat, q: nat :: p < q < |all| ==> Differ(all, p, q))
      && all[0] == head
      && 0 <= depth && hts[0] == depth + 1 <= MAX_LEVELS
    }

    /** The list and the scratch node. */
    ghost predicate Base()
      reads this`path, this`nodes, this`arrays, this`allocs, this`head, this`depth, this`all, this`hts, this`keys,
            nodes`right, nodes`fill, all
    {
      && path != null && path in nodes && head in nodes
      && path !in all
      && path.fill <= |path.right|
      && Listed() && Counted()
    }

    /** As far as one operation looks at them, with the node under construction. */
    ghost predicate Core()
      reads this`path, this`node, this`nodes, this`arrays, this`allocs, this`head, this`depth,
            this`all, this`hts, this`keys, nodes`right, nodes`fill, all
    {
      Base() && path != node && node !in all
    }

    /** A started set: set_ok() and every structural invariant. */
    ghost predicate Valid()
      reads this, nodes, all
    {
      && Core()
      && Owned()
      && (node != null ==> node in nodes && node.fill <= |node.right|)
      && StrictlySorted(cmp, keys)
      && 1 <= ran < 2 * WORD
    }

    /** What a longjmp out of set_start leaves, and what set_end leaves. */
    ghost predicate Partial()
      reads this, nodes
    {
      && Owned() && Counted()
      && all == [] && keys == [] && node == null
      && (head != null ==> head in nodes && head.right == [] && head != path)
      && (path != null ==> path in nodes && path.right == [])
    }

    /** A zeroed set_t. */
    constructor (cmp: (Key, Key) -> int, grant: nat -> bool)
      ensures this.cmp == cmp && this.grant == grant
      ensures Partial() && nodes == {} && leaked == {} && dropped == [] && asked == 0 && head == null && path == null
    {
      this.cmp, this.grant, asked := cmp, grant, 0;
      head, path, node, depth, ran, allocs := null, null, null, 0, 1, 0;
      nodes, arrays, leaked, dropped := {}, {}, {}, [];
      all, hts, keys := [], [], [];
    }

    /** Of `need` requests from number `from` on, those up to `upto` were made: all of them, and all were
        granted, or those up to the first that was refused. */
    static ghost predicate Granted(grant: nat -> bool, from: nat, need: nat, upto: nat, ok: bool)
    {
      && from <= upto <= from + need
      && (if ok then upto == from + need else from < upto && !grant(upto - 1))
      && forall k: nat :: from <= k < upto && (ok || k + 1 < upto) ==> grant(k)
    }

    static lemma GrantedMore(grant: nat -> bool, from: nat, a: nat, mid: nat, b: nat, upto: nat, ok: bool)
      requires Granted(grant, from, a, mid, true) && Granted(grant, mid, b, upto, ok)
      ensures Granted(grant, from, a + b, upto, ok)
    {
    }

    static lemma GrantedFewer(grant: nat -> bool, from: nat, a: nat, b: nat, upto: nat)
      requires Granted(grant, from, a, upto, false)
      ensures Granted(grant, from, a + b, upto, false) && upto <= from + a
    {
    }

    /** The size of an array that was grown: the first doubling that is enough. */
    static function Doubled(more: nat, want: nat): nat
      requires more >= 1
      decreases want - more
    {
      if more >= want then more else Doubled(2 * more, want)
    }

    static function Room(have: nat, want: nat): nat
    {
      if have >= want then have else Doubled(if have != 0 then have else 1, want)
    }

    /** The array gets the smallest size that is enough among its size, or one, times the powers of two. */
    static lemma RoomIs(have: nat, want: nat) returns (k: nat)
      requires want >= 1
      ensures var least := if have == 0 then 1 else have;
        && (have >= want ==> Room(have, want) == have)
        && (have < want ==> Room(have, want) == least * Pow2(k))
        && Room(have, want) >= want && (k > 0 ==> least * Pow2(k - 1) < want)
    {
      k := 0;
      if have < want {
        k := DoubledIs(if have == 0 then 1 else have, want);
      }
    }

    static lemma TwiceAsMuch(more: nat, power: nat)
      ensures more * (2 * power) == 2 * more * power
    {
    }

    static lemma {:induction false} DoubledIs(more: nat, want: nat) returns (k: nat)
      requires more >= 1
      ensures Doubled(more, want) == more * Pow2(k) >= want && (k > 0 ==> more * Pow2(k - 1) < want)
      decreases want - more
    {
      if more >= want {
        k := 0;
      } else {
        var j := DoubledIs(2 * more, want);
        k := j + 1;
        TwiceAsMuch(more, Pow2(j));
        if j > 0 {
          TwiceAsMuch(more, Pow2(j - 1));
        }
      }
    }

    /** set_grow(): realloc by doubling when `want` links do not fit, then fill. */
    method Grow(n: Node<Key>, want: nat, fillIn: bool) returns (ok: bool)
      requires n in nodes && n.fill <= |n.right| && 1 <= want <= MAX_LEVELS
      requires Counted()
      modifies this`asked, this`allocs, this`arrays, n`right, n`fill
      ensures Counted()
      ensures !ok ==> n.right == old(n.right) && n.fill == old(n.fill)
      ensures ok <==> old(|n.right|) >= want || grant(old(asked))
      ensures asked == old(asked) + if old(|n.right|) < want then 1 else 0
      ensures ok ==> n.fill == want <= |n.right| == Room(old(|n.right|), want)
      ensures ok ==> forall i :: 0 <= i < want && i < old(n.fill) ==> n.right[i] == old(n.right)[i]
      ensures ok && fillIn ==> forall i :: old(n.fill) <= i < want ==> n.right[i] == head
    {
      if |n.right| < want {
        var more := if |n.right| != 0 then |n.right| else 1;
        while more < want
          invariant 1 <= more && |n.right| <= more < 2 * want && Room(|n.right|, want) == Doubled(more, want)
        {
          more := 2 * more;
        }
        ok := grant(asked);
        asked := asked + 1;
        if !ok {
          return;
        }
        if n.right == [] {
          allocs := allocs + 1;
          arrays := arrays + {n};
        }
        n.right := n.right + seq(more - |n.right|, _ => null);
      }
      ok := true;
      if fillIn {
        var i := n.fill;
        while i < want
          modifies n`right
          invariant i == n.fill || i <= want
          invariant |n.right| == Room(old(|n.right|), want)
          invariant want <= |n.right| && n.fill <= |n.right| && n.fill <= i
          invariant forall j :: 0 <= j < n.fill ==> n.right[j] == old(n.right)[j]
          invariant forall j :: n.fill <= j < i ==> j < want ==> n.right[j] == head
        {
          n.right := n.right[i := head];
          i := i + 1;
        }
      }
      n.fill := want;
    }

    /** set_node(). */
    method NewNode() returns (n: Node?<Key>)
      requires Counted()
      modifies this`asked, this`allocs, this`nodes
      ensures Counted()
      ensures asked == old(asked) + 1 && (n == null <==> !grant(old(asked)))
      ensures n == null ==> nodes == old(nodes)
      ensures n != null ==> fresh(n) && nodes == old(nodes) + {n} && n.fill == 0 && n.right == []
    {
      var ok := grant(asked);
      asked := asked + 1;
      if !ok {
        return null;
      }
      n := new Node<Key>();
      allocs := allocs + 1;
      nodes := nodes + {n};
    }

    /** One bit of the generator, refilling the trove when it has run out. */
    method NextBit(words: seq<nat>, used0: nat) returns (bit: bool, used: nat)
      requires 1 <= ran < 2 * WORD && Words(words) && used0 <= |words| && Stream(ran, words[used0..]) != []
      modifies this`ran
      ensures 1 <= ran < 2 * WORD && used <= |words|
      ensures old(Stream(ran, words[used0..])) == [bit] + Stream(ran, words[used..])
    {
      hide LowBits, WordBits;
      used := used0;
      if ran == 1 {
        NothingIn(words[used..]);
        assert words[used] in words;
        Refill(words[used..]);
        assert words[used..][1..] == words[used + 1..];
        ran := words[used] + WORD;
        used := used + 1;
      }
      bit := ran % 2 == 1;
      OneBit(ran, words[used..]);
      ran := ran / 2;
    }

    /** Drop the bits one by one until a one turns up. */
    method NextLevel(words: seq<nat>) returns (level: nat, used: nat)
      requires 1 <= ran < 2 * WORD && Words(words)
      requires Lands(Stream(ran, words), MAX_LEVELS)
      modifies this`ran
      ensures 1 <= ran < 2 * WORD && used <= |words| && level < MAX_LEVELS
      ensures level < |old(Stream(ran, words))| && old(Stream(ran, words))[level]
      ensures forall i :: 0 <= i < level ==> !old(Stream(ran, words))[i]
      ensures Stream(ran, words[used..]) == old(Stream(ran, words))[level + 1..]
    {
      hide Stream;
      ghost var bits := Stream(ran, words);
      level, used := 0, 0;
      assert words[0..] == words;
      while true
        invariant 1 <= ran < 2 * WORD && used <= |words| && level < |bits| && level < MAX_LEVELS
        invariant Stream(ran, words[used..]) == bits[level..]
        invariant forall i :: 0 <= i < level ==> !bits[i]
        decreases |bits| - level
      {
        var bit;
        bit, used := NextBit(words, used);
        assert bits[level..][1..] == bits[level + 1..];
        if bit {
          return;
        }
        level := level + 1;
      }
    }

    /** Growing the scratch node changes nothing else. */
    method GrowPath(want: nat, fillIn: bool) returns (ok: bool)
      requires Core() && 1 <= want <= MAX_LEVELS
      modifies this`asked, this`allocs, this`arrays, path`right, path`fill
      ensures Core()
      ensures ok ==> path.fill == want && |path.right| == Room(old(|path.right|), want)
      ensures ok ==> forall i :: 0 <= i < want && i < old(path.fill) ==> path.right[i] == old(path.right)[i]
      ensures ok && fillIn ==> forall i :: old(path.fill) <= i < want ==> path.right[i] == head
      ensures ok <==> old(|path.right|) >= want || grant(old(asked))
      ensures asked == old(asked) + if old(|path.right|) < want then 1 else 0
    {
      ok := Grow(path, want, fillIn);
    }

    /** The keys before place `q` of the list are below `key`, the others are not. */
    ghost predicate Place(q: nat, key: Key)
      reads this`keys
    {
      && 1 <= q <= |keys| + 1
      && (forall p :: 0 <= p < q - 1 ==> cmp(keys[p], key) < 0)
      && (forall p :: q - 1 <= p < |keys| ==> cmp(keys[p], key) >= 0)
    }

    /** The inner loop of set_found(): go right on level `i` while the next key is smaller. */
    method WalkRight(from: Node<Key>, ghost at0: nat, i: nat, key: Key, ghost q: nat)
      returns (here: Node<Key>, ghost at: nat)
      requires Listed() && Place(q, key)
      requires at0 < q && hts[at0] > i && from == all[at0]
      ensures hts[0] > i && at == Last(hts, q, i) && here == all[Last(hts, q, i)]
    {
      here, at := from, at0;
      assert NodeAt(all, hts, keys, at) && LinkAt(all, hts, at, i);
      while here.right[i] != head && cmp(here.right[i].key, key) < 0
        invariant at < q && hts[at] > i && here == all[at]
        invariant |here.right| > i && here.right[i] == all[Next(hts, at, i)]
        decreases |all| - at
      {
        ghost var n := Next(hts, at, i);
        assert NodeAt(all, hts, keys, n) && LinkAt(all, hts, n, i);
        at := n;
        here := here.right[i];
      }
      ghost var n := Next(hts, at, i);
      assert NodeAt(all, hts, keys, n) && (n != 0 ==> Differ(all, 0, n));
      LastIffNextBeyond(hts, q, at, i);
    }

    ghost predicate PathAt(q: nat, i: nat)
      requires path != null && 1 <= q <= |hts| == |all| && i < hts[0]
      reads this`path, this`hts, this`all, path
    {
      i < |path.right| && path.right[i] == all[Last(hts, q, i)]
    }

    /** On every level, path holds the last node before place `q`. */
    ghost predicate PathTo(q: nat)
      requires path != null && 1 <= q <= |hts|
      reads this`path, this`hts, this`all, path
    {
      && path.fill == hts[0] <= |path.right| && |all| == |hts|
      && forall i: nat :: i < hts[0] ==> PathAt(q, i)
    }

    /** The nested loops of set_found(). */
    method Descend(key: Key, ghost q: nat) returns (here: Node<Key>)
      requires path != null && path !in all && Listed() && Place(q, key) && path.fill == hts[0] <= |path.right|
      modifies path`right
      ensures Listed() && |path.right| == |old(path.right)| && PathTo(q)
      ensures here == all[Last(hts, q, 0)]
    {
      here := head;
      ghost var at: nat := 0;
      var i := depth;
      while true
        invariant 0 <= i <= depth && |path.right| == |old(path.right)|
        invariant Listed()
        invariant at < q && hts[at] > i && here == all[at]
        invariant forall l: nat :: i < l <= depth ==> PathAt(q, l)
        decreases i
      {
        here, at := WalkRight(here, at, i, key, q);
        ghost var links := path.right;
        assert forall l: nat :: i < l <= depth ==> PathAt(q, l) ==> links[l] == all[Last(hts, q, l)];
        path.right := path.right[i := here];
        if i == 0 {
          return;
        }
        i := i - 1;
      }
    }

    /** The final comparison of set_found(). */
    method IsHit(from: Node<Key>, key: Key, ghost q: nat) returns (r: Outcome)
      requires Listed() && Place(q, key) && from == all[Last(hts, q, 0)]
      ensures r == Done(q <= |keys| && cmp(keys[q - 1], key) == 0)
    {
      ghost var at := Last(hts, q, 0);
      LastIffNextBeyond(hts, q, at, 0);
      ghost var n := Next(hts, at, 0);
      assert NodeAt(all, hts, keys, at) && LinkAt(all, hts, at, 0) && NodeAt(all, hts, keys, n)
             && (n != 0 ==> Differ(all, 0, n));
      assert q < |all| ==> NodeAt(all, hts, keys, q) && n == q;
      var here := from.right[0];
      r := Done(here != head && cmp(here.key, key) == 0);
    }

    /** How many allocations set_found() asks for: one when path is too short. */
    ghost function PathNeeds(): nat
      requires path != null
      reads this`path, this`depth, path`right
    {
      if |path.right| < depth + 1 then 1 else 0
    }

    ghost predicate SearchGranted()
      requires path != null
      reads this`path, this`depth, this`asked, path`right
    {
      PathNeeds() == 0 || grant(asked)
    }

    /** set_found(): 1 exactly when the key is a member.  `path` then holds, level by level, the
        last node before the key's place. */
    method Found(key: Key) returns (r: Outcome)
      requires TotalOrder(cmp) && Valid()
      modifies this`asked, this`allocs, this`arrays, path`right, path`fill
      ensures Valid() && asked == old(asked) + old(PathNeeds())
      ensures r.NoMemory? <==> old(PathNeeds()) == 1 && !grant(old(asked))
      ensures r.Done? ==> r.flag == Member(cmp, keys, key)
      ensures r.Done? ==> PathTo(Rank(cmp, keys, key) + 1) && |path.right| == Room(old(|path.right|), depth + 1)
    {
      var ok := GrowPath(depth + 1, false);
      if !ok {
        return NoMemory;
      }
      ghost var q := Rank(cmp, keys, key) + 1;
      RankSplits(cmp, keys, key);
      r := Search(key, q);
    }

    /** set_found() after its one allocation. */
    method Search(key: Key, ghost q: nat) returns (r: Outcome)
      requires Core() && Place(q, key) && path.fill == hts[0]
      modifies path`right
      ensures Core() && PathTo(q) && |path.right| == old(|path.right|)
      ensures r == Done(q <= |keys| && cmp(keys[q - 1], key) == 0)
    {
      var here := Descend(key, q);
      r := IsHit(here, key, q);
    }

    /** The list after the head alone got new, empty levels. */
    twostate lemma HeadRaised(level: nat)
      requires old(Listed()) && old(depth) < level < MAX_LEVELS && depth == level
      requires all == old(all) && keys == old(keys) && head == old(head)
      requires hts == old(hts)[0 := level + 1]
      requires forall p :: 1 <= p < |all| ==>
                 all[p].fill == old(all[p].fill) && all[p].right == old(all[p].right) && all[p].key == old(all[p].key)
      requires head != null && old(head.fill <= |head.right|) && head.fill == level + 1 <= |head.right|
      requires old(head.fill) <= level
      requires forall i :: 0 <= i < old(head.fill) ==> head.right[i] == old(head.right)[i]
      requires forall i :: old(head.fill) <= i <= level ==> head.right[i] == head
      ensures Listed()
    {
      ghost var was := old(hts);
      forall p: nat | p < |all|
        ensures NodeAt(all, hts, keys, p)
      {
        assert old(NodeAt(all, hts, keys, p));
        assert p > 0 ==> old(Differ(all, 0, p));
      }
      forall p: nat, i: nat | p < |all| && i < hts[p]
        ensures LinkAt(all, hts, p, i)
      {
        NextAfterHeadGrows(was, level + 1, p, i);
        assert old(NodeAt(all, hts, keys, p));
        if p > 0 || i < was[0] {
          assert old(LinkAt(all, hts, p, i));
          assert p > 0 ==> old(Differ(all, 0, p));
        }
      }
      forall p: nat, q: nat | p < q < |all|
        ensures Differ(all, p, q)
      {
        assert old(Differ(all, p, q));
      }
    }

    /** The second set_grow() of set_insert(): new levels of the head, each an empty list. */
    method RaiseHead(level: nat) returns (ok: bool)
      requires Core() && depth < level < MAX_LEVELS
      modifies this`asked, this`allocs, this`arrays, this`hts, this`depth, head`right, head`fill
      ensures Core() && Granted(grant, old(asked), if old(|head.right|) < level + 1 then 1 else 0, asked, ok)
      ensures ok ==> depth == level && hts == old(hts)[0 := level + 1]
      ensures !ok ==> depth == old(depth) && hts == old(hts)
    {
      assert NodeAt(all, hts, keys, 0);
      forall p: nat | 0 < p < |all|
        ensures all[p] != head
      {
        assert Differ(all, 0, p);
      }
      ok := Grow(head, level + 1, true);
      if ok {
        depth := level;
        hts := hts[0 := level + 1];
        HeadRaised(level);
      }
    }

    /** How many allocations the second part of set_insert() asks for before it makes the node: path
        and head are grown when the list gets deeper. */
    ghost function DeepenNeeds(level: nat): nat
      requires path != null && head != null
      reads this`path, this`head, this`depth, path`right, head`right
    {
      if level <= depth then 0
      else (if |path.right| < level + 1 then 1 else 0) + (if |head.right| < level + 1 then 1 else 0)
    }

    /** "The maximum depth is now deeper": grow path, then head, then move depth. */
    method Deepen(level: nat, ghost q: nat) returns (ok: bool)
      requires Core() && 1 <= q <= |hts| && PathTo(q) && level < MAX_LEVELS
      modifies this`asked, this`allocs, this`arrays, this`hts, this`depth, head`right, head`fill, path`right, path`fill
      ensures Core() && hts[1..] == old(hts)[1..]
      ensures ok ==> level <= depth && PathTo(q)
      ensures Granted(grant, old(asked), old(DeepenNeeds(level)), asked, ok)
    {
      if level <= depth {
        return true;
      }
      ghost var was, links, from, raise := hts, path.right, asked, if |head.right| < level + 1 then 1 else 0;
      assert was[0] == depth + 1 && path.fill == was[0] && all[0] == head && |all| == |hts|;
      forall i: nat | i < was[0]
        ensures i < |links| && links[i] == all[Last(was, q, i)]
      {
        assert PathAt(q, i);
      }
      assert Heights(was) by { assert Listed(); }
      hide Core, PathTo, Heights, Last, Granted;
      ghost var grow := if |path.right| < level + 1 then 1 else 0;
      ok := GrowPath(level + 1, true);
      OneRequest(grant, from, grow, asked, ok);
      if ok {
        ghost var grown, mid := path.right, asked;
        ok := RaiseHead(level);
        GrantedMore(grant, from, grow, mid, raise, asked, ok);
        if ok {
          assert path.right == grown;
          PathDeepened(was, level, q);
        }
      } else {
        GrantedFewer(grant, from, grow, raise, asked);
      }
    }

    static lemma OneRequest(grant: nat -> bool, from: nat, need: nat, upto: nat, ok: bool)
      requires need <= 1 && upto == from + need && (ok <==> need == 0 || grant(from))
      ensures Granted(grant, from, need, upto, ok)
    {
    }

    lemma PathDeepened(was: seq<nat>, level: nat, q: nat)
      requires path != null && Heights(was) && 1 <= q <= |was| == |all| && was[0] <= level
      requires hts == was[0 := level + 1] && path.fill == level + 1 <= |path.right|
      requires forall i: nat :: i < was[0] ==> path.right[i] == all[Last(was, q, i)]
      requires forall i: nat :: was[0] <= i <= level ==> path.right[i] == all[0]
      ensures PathTo(q)
    {
      forall i: nat | i < hts[0]
        ensures PathAt(q, i)
      {
        LastAfterHeadGrows(was, level + 1, q, i);
      }
    }

    /** set->node = set_node(set): storing the new node forgets the one that a failed
        set_insert() may have left there. */
    method StoreNode() returns (ok: bool)
      requires Core() && Owned()
      modifies this`asked, this`allocs, this`nodes, this`node, this`leaked
      ensures Core() && Owned() && asked == old(asked) + 1 && (ok <==> grant(old(asked)))
      ensures !ok ==> node == old(node) && leaked == old(leaked)
      ensures ok ==> node != null && fresh(node) && node in nodes && node.right == [] && node.fill == 0
      ensures fresh(nodes - old(nodes))
      ensures ok ==> leaked == old(leaked) + One(old(node))
    {
      DistinctNodes();
      hide *;
      var n := NewSpare();
      if n == null {
        return false;
      }
      Adopt(n);
      ok := true;
    }

    /** The node under construction is another one from now on. */
    method Adopt(n: Node<Key>)
      requires Spare(n) && Base()
      modifies this`node, this`leaked
      ensures Core() && Owned() && node == n && n != path && n !in all && leaked == old(leaked) + One(old(node))
    {
      hide Base;
      leaked, node := leaked + One(node), n;
    }

    /** A new node that no pointer of the set reaches yet. */
    ghost predicate Spare(n: Node<Key>)
      reads this`nodes, this`leaked, this`all, this`head, this`path, this`node
    {
      && (forall m :: m in all ==> m in nodes)
      && (forall m :: m in leaked ==> m in nodes)
      && (head != null ==> head in nodes) && (path != null ==> path in nodes) && (node != null ==> node in nodes)
      && (forall m :: m in nodes ==> m in all || m == head || m == path || m == node || m in leaked || m == n)
      && (forall m :: m in leaked ==> m !in all && m != head && m != path && m != node)
      && n in nodes && n !in all && n !in leaked && n != head && n != path && n != node
      && (node != null ==> node !in all && node != head && node != path)
    }

    method NewSpare() returns (n: Node?<Key>)
      requires Core() && Owned()
      modifies this`asked, this`allocs, this`nodes
      ensures Base() && asked == old(asked) + 1 && (n == null <==> !grant(old(asked)))
      ensures n == null ==> nodes == old(nodes) && Owned() && Core()
      ensures n != null ==> nodes == old(nodes) + {n} && fresh(n) && Spare(n) && n.right == [] && n.fill == 0
      ensures fresh(nodes - old(nodes))
    {
      n := NewNode();
    }

    /** Make the node for the key, with room for its links. */
    method MakeNode(key: Key, level: nat) returns (ok: bool)
      requires Core() && Owned() && level < MAX_LEVELS
      modifies this`asked, this`allocs, this`arrays, this`nodes, this`node, this`leaked
      ensures Core() && Owned()
      ensures node != old(node) ==> node != null && fresh(node) && node in nodes && node.fill <= |node.right|
      ensures node != old(node) ==> node.key == key && leaked == old(leaked) + One(old(node))
      ensures node == old(node) ==> !ok && leaked == old(leaked)
      ensures ok ==> node.fill == level + 1
      ensures fresh(nodes - old(nodes))
      ensures node != old(node) <==> grant(old(asked))
      ensures Granted(grant, old(asked), 2, asked, ok) && (!ok ==> (node != old(node) <==> asked == old(asked) + 2))
    {
      hide Base, Owned, Counted, Listed;
      ok := StoreNode();
      if ok {
        node.key := key;
        ok := GrowNode(level + 1);
      }
    }

    /** Growing the node under construction changes nothing else. */
    method GrowNode(want: nat) returns (ok: bool)
      requires Core() && node != null && node in nodes && node.fill <= |node.right| && 1 <= want <= MAX_LEVELS
      modifies this`asked, this`allocs, this`arrays, node`right, node`fill
      ensures Core() && node.fill <= |node.right| && (ok ==> node.fill == want)
      ensures ok <==> old(|node.right|) >= want || grant(old(asked))
      ensures asked == old(asked) + if old(|node.right|) < want then 1 else 0
    {
      ok := Grow(node, want, false);
    }

    /** Level `l` of the list while `n` is being linked in on the levels below `done`. */
    static ghost predicate Spliced(ns: seq<Node<Key>>, hs: seq<nat>, n: Node<Key>, q: nat, done: nat, p: nat, l: nat)
      requires Heights(hs) && 1 <= q <= |hs| == |ns| && p < |ns| && l < hs[p]
      reads ns[p]
    {
      && l < |ns[p].right|
      && ns[p].right[l] == if l < done && p == Last(hs, q, l) then n else ns[Next(hs, p, l)]
    }

    static ghost predicate AllSpliced(ns: seq<Node<Key>>, hs: seq<nat>, n: Node<Key>, q: nat, done: nat)
      requires Heights(hs) && 1 <= q <= |hs| == |ns|
      reads ns
    {
      forall p: nat, l: nat :: p < |ns| && l < hs[p] ==> Spliced(ns, hs, n, q, done, p, l)
    }

    /** The links of the new node on the levels below `k`. */
    static ghost predicate NewLinks(ns: seq<Node<Key>>, hs: seq<nat>, links: seq<Node?<Key>>, q: nat, k: nat)
      requires 1 <= q <= |hs| == |ns| && k <= hs[0]
    {
      k <= |links| && forall l: nat :: l < k ==> links[l] == ns[Next(hs, Last(hs, q, l), l)]
    }

    static lemma NewLinksStep(ns: seq<Node<Key>>, hs: seq<nat>, links: seq<Node?<Key>>, q: nat, k: nat)
      requires 1 <= q <= |hs| == |ns| && k < hs[0] && k < |links| && NewLinks(ns, hs, links, q, k)
      ensures NewLinks(ns, hs, links[k := ns[Next(hs, Last(hs, q, k), k)]], q, k + 1)
    {
    }

    /** Heap facts about the list that linking does not touch. */
    ghost predicate Slots()
      reads this`all, this`hts, this`keys, this`head, this`depth, all
    {
      && Lengths() && Heights(hts) && hts[0] == depth + 1
      && (forall p: nat :: p < |all| ==> NodeAt(all, hts, keys, p))
      && (forall p: nat, q: nat :: p < q < |all| ==> Differ(all, p, q))
    }

    /** One iteration: the new node takes over the link of the node on the path. */
    method SpliceOne(prev: Node<Key>, n: Node<Key>, i: nat, ghost q: nat)
      requires Slots() && 1 <= q <= |hts| && i <= depth && AllSpliced(all, hts, n, q, i)
      requires n !in all && i < |n.right| && prev == all[Last(hts, q, i)]
      modifies prev`right, n`right
      ensures Slots() && AllSpliced(all, hts, n, q, i + 1)
      ensures n.right == old(n.right)[i := all[Next(hts, Last(hts, q, i), i)]]
    {
      ghost var at := Last(hts, q, i);
      assert Spliced(all, hts, n, q, i, at, i) && NodeAt(all, hts, keys, at);
      n.right := n.right[i := prev.right[i]];
      prev.right := prev.right[i := n];
      ghost var done := i + 1;
      forall p: nat, l: nat | p < |all| && l < hts[p]
        ensures Spliced(all, hts, n, q, done, p, l)
      {
        assert old(Spliced(all, hts, n, q, i, p, l));
        assert p < at ==> Differ(all, p, at);
        assert at < p ==> Differ(all, at, p);
      }
      forall p: nat | p < |all|
        ensures NodeAt(all, hts, keys, p)
      {
        assert old(NodeAt(all, hts, keys, p));
      }
    }

    /** The loop that links the new node in after the nodes on the path. */
    method SpliceLoop(level: nat, n: Node<Key>, ghost q: nat)
      requires Slots() && 1 <= q <= |hts| && AllSpliced(all, hts, n, q, 0) && level <= depth
      requires n !in all && level < |n.right|
      requires path != null && path != n && path !in all && PathTo(q)
      modifies all`right, n`right
      ensures Slots() && AllSpliced(all, hts, n, q, level + 1) && |n.right| == old(|n.right|)
      ensures NewLinks(all, hts, n.right, q, level + 1)
    {
      assert level < hts[0] && Heights(hts) && |all| == |hts|;
      PathLong(q);
      var i := 0;
      while i <= level
        invariant i <= level + 1
        invariant Slots() && AllSpliced(all, hts, n, q, i) && |n.right| == old(|n.right|)
        invariant NewLinks(all, hts, n.right, q, i)
      {
        hide Slots, AllSpliced, NewLinks, PathTo, Next, Last, Heights;
        PathUse(q, i);
        NewLinksStep(all, hts, n.right, q, i);
        SpliceOne(path.right[i], n, i, q);
        i := i + 1;
      }
    }

    lemma PathLong(q: nat)
      requires path != null && 1 <= q <= |hts| && PathTo(q)
      ensures hts[0] <= |path.right|
    {
    }

    lemma PathUse(q: nat, i: nat)
      requires path != null && 1 <= q <= |hts| && PathTo(q) && i < hts[0]
      ensures i < |path.right| && path.right[i] == all[Last(hts, q, i)]
    {
      assert PathAt(q, i);
    }

    /** Once linked on all its levels, the new node is simply one more node of the list. */
    static lemma LinkAfterSplice(ns: seq<Node<Key>>, hs: seq<nat>, n: Node<Key>, q: nat, h: nat, p: nat, i: nat)
      requires Heights(hs) && 1 <= q <= |hs| == |ns| && p < |ns| && i < hs[p]
      requires Spliced(ns, hs, n, q, h, p, i)
      ensures LinkAt(Inserted(ns, q, n), Inserted(hs, q, h), Shift(q, p), i)
    {
      NextAfterInsert(hs, q, h, p, i);
    }

    static lemma OwnLinkAfterSplice(ns: seq<Node<Key>>, hs: seq<nat>, n: Node<Key>, q: nat, h: nat, i: nat)
      requires 1 <= q <= |hs| == |ns| && i < hs[0]
      requires i < |n.right| && n.right[i] == ns[Next(hs, Last(hs, q, i), i)]
      ensures LinkAt(Inserted(ns, q, n), Inserted(hs, q, h), q, i)
    {
      NextOfInserted(hs, q, h, i);
    }

    lemma NoTwinsAfterSplice(ns: seq<Node<Key>>, n: Node<Key>, q: nat)
      requires q <= |ns| && n !in ns && forall p: nat, r: nat :: p < r < |ns| ==> Differ(ns, p, r)
      ensures var s := Inserted(ns, q, n); forall p: nat, r: nat :: p < r < |s| ==> Differ(s, p, r)
    {
      var s := Inserted(ns, q, n);
      forall p: nat, r: nat | p < r < |s|
        ensures Differ(s, p, r)
      {
        if p != q && r != q {
          assert Differ(ns, if p < q then p else p - 1, if r < q then r else r - 1);
        }
      }
    }

    lemma ListedAfterSplice(ns: seq<Node<Key>>, hs: seq<nat>, ks: seq<Key>, n: Node<Key>, q: nat, h: nat)
      requires Heights(hs) && 1 <= q <= |hs| == |ns| == |ks| + 1 && 1 <= h <= hs[0] == depth + 1 <= MAX_LEVELS
      requires AllSpliced(ns, hs, n, q, h) && h <= hs[0] && NewLinks(ns, hs, n.right, q, h)
      requires forall p: nat :: p < |ns| ==> NodeAt(ns, hs, ks, p)
      requires forall p: nat, r: nat :: p < r < |ns| ==> Differ(ns, p, r)
      requires n !in ns && n.fill == h <= |n.right| && head == ns[0]
      requires all == Inserted(ns, q, n) && hts == Inserted(hs, q, h) && keys == Inserted(ks, q - 1, n.key)
      ensures Listed()
    {
      hide Next, Last, Spliced, LinkAt;
      NoTwinsAfterSplice(ns, n, q);
      forall p: nat | p < |all|
        ensures NodeAt(all, hts, keys, p)
      {
        assert p < q ==> NodeAt(ns, hs, ks, p);
        assert p > q ==> NodeAt(ns, hs, ks, p - 1);
      }
      forall p: nat, i: nat | p < |all| && i < hts[p]
        ensures LinkAt(all, hts, p, i)
      {
        if p == q {
          OwnLinkAfterSplice(ns, hs, n, q, h, i);
        } else {
          var o := if p < q then p else p - 1;
          assert Spliced(ns, hs, n, q, h, o, i);
          LinkAfterSplice(ns, hs, n, q, h, o, i);
        }
      }
    }

    /** The last part of set_insert(): link, and forget the node under construction. */
    method Splice(level: nat, ghost q: nat)
      requires Core() && level <= depth && 1 <= q <= |hts| && PathTo(q)
      requires node != null && node.fill == level + 1 <= |node.right|
      modifies this`node, this`all, this`hts, this`keys, all`right, node`right
      ensures node == null && Listed()
      ensures all == Inserted(old(all), q, old(node)) && keys == Inserted(old(keys), q - 1, old(node.key))
      ensures hts == Inserted(old(hts), q, level + 1)
    {
      ghost var ns, hs, ks, n, h := all, hts, keys, node, level + 1;
      forall p: nat, l: nat | p < |all| && l < hts[p]
        ensures Spliced(all, hts, node, q, 0, p, l)
      {
        assert LinkAt(all, hts, p, l);
      }
      SpliceLoop(level, node, q);
      all, hts, keys := Inserted(ns, q, n), Inserted(hs, q, h), Inserted(ks, q - 1, n.key);
      node := null;
      ListedAfterSplice(ns, hs, ks, n, q, h);
    }

    lemma ListNodesHaveLinks()
      requires Listed()
      ensures forall m :: m in all ==> m.right != []
    {
      forall m | m in all
        ensures m.right != []
      {
        var p: nat :| p < |all| && all[p] == m;
        assert NodeAt(all, hts, keys, p);
      }
    }

    /** Linking keeps the books: the node under construction becomes a node of the list. */
    method LinkNode(level: nat, ghost q: nat)
      requires Core() && Owned() && level <= depth && 1 <= q <= |hts| && PathTo(q)
      requires node != null && node.fill == level + 1 <= |node.right|
      modifies this`node, this`all, this`hts, this`keys, all`right, node`right
      ensures node == null && Core() && Owned()
      ensures keys == Inserted(old(keys), q - 1, old(node.key)) && hts == Inserted(old(hts), q, level + 1)
    {
      ListNodesHaveLinks();
      Splice(level, q);
      ListNodesHaveLinks();
    }

    lemma DistinctNodes()
      requires Core()
      ensures path != null && path in nodes && path !in all && head in nodes && |hts| == |keys| + 1
      ensures path != node && head != null && head != node
    {
    }

    lemma ValidGives()
      requires Valid()
      ensures Core() && Owned() && StrictlySorted(cmp, keys) && 1 <= ran < 2 * WORD
      ensures node != null ==> node in nodes && node.fill <= |node.right|
    {
    }

    lemma ValidFrom()
      requires Core() && Owned() && StrictlySorted(cmp, keys) && 1 <= ran < 2 * WORD
      requires node != null ==> node.fill <= |node.right|
      ensures Valid()
    {
    }

    /** Make the node and link it. */
    method MakeAndLink(key: Key, level: nat, ghost q: nat) returns (ok: bool)
      requires Core() && Owned() && level <= depth && level < MAX_LEVELS && 1 <= q <= |hts| && PathTo(q)
      requires node != null ==> node.fill <= |node.right|
      modifies this`asked, this`allocs, this`arrays, this`nodes, this`hts, this`node, this`leaked, this`all,
               this`keys, all`right
      ensures Core() && Owned()
      ensures Effect(old(keys), old(hts)[1..], old(node), old(leaked), key,
                     if ok then Done(false) else NoMemory, q, level + 1)
      ensures node != null ==> node.fill <= |node.right|
      ensures fresh(nodes - old(nodes))
      ensures Granted(grant, old(asked), 2, asked, ok) && (!ok ==> (node != old(node) <==> asked == old(asked) + 2))
    {
      DistinctNodes();
      hide Core, Listed, Counted, Owned, Inserted, PathTo, Granted;
      ok := MakeNode(key, level);
      if ok {
        InsertedTail(hts, q, level + 1);
        LinkNode(level, q);
      }
    }

    /** set_insert() once the key is known to be absent and the level is drawn. */
    method InsertAt(key: Key, level: nat, ghost q: nat) returns (ok: bool)
      requires Core() && Owned() && level < MAX_LEVELS && 1 <= q <= |hts| && PathTo(q)
      requires node != null ==> node.fill <= |node.right|
      modifies this`asked, this`allocs, this`arrays, this`nodes, this`hts, this`depth, this`node, this`leaked,
               this`all, this`keys, path`right, path`fill, head`fill, all`right
      ensures Core() && Owned()
      ensures Effect(old(keys), old(hts)[1..], old(node), old(leaked), key,
                     if ok then Done(false) else NoMemory, q, level + 1)
      ensures node != null ==> node.fill <= |node.right|
      ensures fresh(nodes - old(nodes))
      ensures Requested(old(asked), old(DeepenNeeds(level)), old(node), if ok then Done(false) else NoMemory)
    {
      DistinctNodes();
      assert head in all;
      hide *;
      ghost var from, need, was := asked, DeepenNeeds(level), node;
      ok := TryDeepen(key, level, q);
      ghost var mid := asked;
      if ok {
        ok := MakeAndLink(key, level, q);
        AllRequested(from, need, mid, was, ok);
      } else {
        FewRequested(from, need, was);
      }
    }

    /** The requests behind the search, of which `need` are for path and head and two for the node: they
        stop at the first that is refused, and a node is left under construction exactly when that
        is the last of them, the one for its links. */
    ghost predicate Requested(from: nat, need: nat, node0: Node?<Key>, r: Outcome)
      reads this`asked, this`node
    {
      && Granted(grant, from, need + 2, asked, r == Done(false))
      && (r == NoMemory ==> (node != node0 <==> asked == from + need + 2))
    }

    lemma AllRequested(from: nat, need: nat, mid: nat, node0: Node?<Key>, ok: bool)
      requires Granted(grant, from, need, mid, true) && Granted(grant, mid, 2, asked, ok)
      requires !ok ==> (node != node0 <==> asked == mid + 2)
      ensures Requested(from, need, node0, if ok then Done(false) else NoMemory)
    {
      GrantedMore(grant, from, need, mid, 2, asked, ok);
    }

    lemma FewRequested(from: nat, need: nat, node0: Node?<Key>)
      requires Granted(grant, from, need, asked, false) && node == node0
      ensures Requested(from, need, node0, NoMemory)
    {
      GrantedFewer(grant, from, need, 2, asked);
    }

    method TryDeepen(key: Key, level: nat, ghost q: nat) returns (ok: bool)
      requires Core() && Owned() && 1 <= q <= |hts| && PathTo(q) && level < MAX_LEVELS
      requires node != null ==> node.fill <= |node.right|
      modifies this`asked, this`allocs, this`arrays, this`hts, this`depth, head`right, head`fill, path`right, path`fill
      ensures Core() && Owned() && |hts| == old(|hts|) == |keys| + 1 && hts[1..] == old(hts)[1..]
      ensures node != null ==> node.fill <= |node.right|
      ensures ok ==> level <= depth && PathTo(q)
      ensures !ok ==> Effect(keys, hts[1..], node, leaked, key, NoMemory, q, level + 1)
      ensures Granted(grant, old(asked), old(DeepenNeeds(level)), asked, ok)
    {
      DistinctNodes();
      hide Core, Owned, Granted;
      ok := Deepen(level, q);
      DistinctNodes();
      if !ok {
        NothingStored(key, q, level + 1);
      }
    }

    /** What an insertion that answers `r` does to the set: with 0 the new node, of height `h`, is at
        place `q`, and none is under construction; otherwise keys and heights stay.  A failing
        insertion may have made a node current, which then is the one under construction.  The
        node that was under construction before is lost when another one took its place. */
    ghost predicate Effect(keys0: seq<Key>, heights0: seq<nat>, node0: Node?<Key>, leaked0: set<Node<Key>>,
                           key: Key, r: Outcome, q: nat, h: nat)
      requires 1 <= q <= |keys0| + 1 == |heights0| + 1
      reads this`keys, this`hts, this`node, this`leaked, One(node)`key
    {
      && |hts| >= 1
      && (r == Done(false) ==>
            node == null && keys == Inserted(keys0, q - 1, key) && hts[1..] == Inserted(heights0, q - 1, h))
      && (r != Done(false) ==> keys == keys0 && hts[1..] == heights0)
      && (r == Done(true) ==> node == node0)
      && (r == NoMemory && node != node0 ==> node != null && node.key == key)
      && leaked == leaked0 + (if r == Done(false) || node != node0 then One(node0) else {})
    }

    /** The effect of an insertion with the search behind it, `asked0` requests made and `bits` to
        come: at most one flip is used, and the requests are those that `need` and the allocator say.
        A search that was cut short leaves everything as it was. */
    ghost predicate Ended(keys0: seq<Key>, heights0: seq<nat>, node0: Node?<Key>, leaked0: set<Node<Key>>,
                          key: Key, r: Outcome, q: nat, bits: seq<bool>, rest: seq<bool>,
                          asked0: nat, need: nat, searched: bool)
      requires 1 <= q <= |keys0| + 1 == |heights0| + 1
      reads this`keys, this`hts, this`node, this`leaked, this`asked, One(node)`key
    {
      && Effect(keys0, heights0, node0, leaked0, key, r, q, FirstBit(bits) + 1)
      && rest == (if r == Done(true) || !searched then bits else AfterFlip(bits))
      && (if searched && r != Done(true) then Requested(asked0, need, node0, r) else asked == asked0 && node == node0)
    }

    lemma NoEffect(key: Key, r: Outcome, q: nat, bits: seq<bool>, need: nat)
      requires 1 <= q <= |keys| + 1 == |hts| && r != Done(false)
      ensures Ended(keys, hts[1..], node, leaked, key, r, q, bits, bits, asked, need, r == Done(true))
    {
    }

    lemma NothingStored(key: Key, q: nat, h: nat)
      requires 1 <= q <= |keys| + 1 == |hts|
      ensures Effect(keys, hts[1..], node, leaked, key, NoMemory, q, h)
    {
    }

    /** set_insert(): returns 1 exactly when the key is already there; otherwise the new node
        gets its place in the order and the level that the random bits say.  After an
        allocation failure the keys are as before, and the node under construction, if there
        is one, is in `node`. */
    method Insert(key: Key, words: seq<nat>) returns (r: Outcome, used: nat)
      requires TotalOrder(cmp) && Valid() && Words(words)
      requires Member(cmp, keys, key) || Lands(Stream(ran, words), MAX_LEVELS)
      modifies this`asked, this`allocs, this`arrays, this`nodes, this`hts, this`depth, this`node, this`leaked,
               this`all, this`keys, this`ran, nodes`right, nodes`fill
      ensures Valid() && used <= |words| && fresh(nodes - old(nodes))
      ensures r.Done? ==> r.flag == Member(cmp, old(keys), key)
      ensures Ended(old(keys), old(hts)[1..], old(node), old(leaked), key, r, Rank(cmp, old(keys), key) + 1,
                    old(Stream(ran, words)), Stream(ran, words[used..]), old(asked + PathNeeds()),
                    old(NeedsBehind(FirstBit(Stream(ran, words)))), old(SearchGranted()))
      ensures old(SearchGranted()) && Member(cmp, old(keys), key) ==> r == Done(true)
    {
      DistinctNodes();
      assert words[0..] == words;
      used := 0;
      hide *;
      r := Probe(key, Stream(ran, words));
      if r == Done(false) {
        r, used := InsertMissing(key, words);
      }
    }

    /** DeepenNeeds(level) as it is going to be behind the search, which may grow path. */
    ghost function NeedsBehind(level: nat): nat
      requires path != null && head != null && depth >= 0
      reads this`path, this`head, this`depth, path`right, head`right
    {
      if level <= depth then 0
      else (if Room(|path.right|, depth + 1) < level + 1 then 1 else 0) + (if |head.right| < level + 1 then 1 else 0)
    }

    /** The allocator refuses exactly the last request of an insertion of `key`, the one for the links of
        the new node; `bits` are the random bits to come. */
    ghost predicate LeavesNode(key: Key, bits: seq<bool>)
      requires path != null && head != null && depth >= 0
      reads this`keys, this`asked, this`path, this`head, this`depth, path`right, head`right
    {
      && !Member(cmp, keys, key) && SearchGranted()
      && var from, need := asked + PathNeeds(), NeedsBehind(FirstBit(bits));
         LastRefused(grant, from, need)
    }

    /** Of `need` + 2 requests from number `from` on, just the last is refused. */
    static ghost predicate LastRefused(grant: nat -> bool, from: nat, need: nat)
    {
      (forall k: nat :: from <= k <= from + need ==> grant(k)) && !grant(from + need + 1)
    }

    /** The same, with the random words to come. */
    ghost predicate WillLeave(key: Key, words: seq<nat>)
      requires Valid()
      reads this, nodes, all
    {
      LeavesNode(key, Stream(ran, words))
    }

    lemma WillLeaveIs(key: Key, words: seq<nat>)
      requires Valid()
      ensures ran >= 1 && path != null && head != null && depth >= 0
      ensures var from, need := asked + PathNeeds(), NeedsBehind(FirstBit(Stream(ran, words)));
        WillLeave(key, words) <==>
          !Member(cmp, keys, key) && SearchGranted() && LastRefused(grant, from, need)
    {
    }

    /** So it is the refusals that decide whether a node is left. */
    lemma EndedLeaves(keys0: seq<Key>, heights0: seq<nat>, node0: Node?<Key>, leaked0: set<Node<Key>>, key: Key,
                      r: Outcome, q: nat, bits: seq<bool>, rest: seq<bool>, from: nat, need: nat,
                      searched: bool, member: bool)
      requires 1 <= q <= |keys0| + 1 == |heights0| + 1 && (r.Done? ==> r.flag == member)
               && (member ==> r != Done(false))
      requires Ended(keys0, heights0, node0, leaked0, key, r, q, bits, rest, from, need, searched)
      requires searched && member ==> r == Done(true)
      ensures r == NoMemory && node != node0 <==> searched && !member && LastRefused(grant, from, need)
      ensures |hts| >= 1 && Effect(keys0, heights0, node0, leaked0, key, r, q, FirstBit(bits) + 1)
      ensures rest == bits || rest == AfterFlip(bits)
    {
    }

    /** The search of set_insert(); `bits` are the random bits to come. */
    method Probe(key: Key, ghost bits: seq<bool>) returns (r: Outcome)
      requires TotalOrder(cmp) && Valid()
      modifies this`asked, this`allocs, this`arrays, path`right, path`fill
      ensures Valid() && asked == old(asked + PathNeeds())
      ensures r.Done? ==> r.flag == Member(cmp, keys, key) && PathTo(Rank(cmp, keys, key) + 1)
      ensures r.Done? ==> old(SearchGranted())
      ensures r != Done(false) ==> |hts| == |keys| + 1
      ensures r != Done(false) ==>
                Ended(keys, hts[1..], node, leaked, key, r, Rank(cmp, keys, key) + 1, bits, bits,
                      asked, old(NeedsBehind(FirstBit(bits))), r == Done(true))
      ensures r == Done(false) ==> DeepenNeeds(FirstBit(bits)) == old(NeedsBehind(FirstBit(bits)))
      ensures r == NoMemory ==> !old(SearchGranted())
    {
      DistinctNodes();
      ghost var need := NeedsBehind(FirstBit(bits));
      r := Found(key);
      if r != Done(false) {
        HeightsCount();
        NoEffect(key, r, Rank(cmp, keys, key) + 1, bits, need);
      }
    }

    lemma HeightsCount()
      requires Valid()
      ensures |hts| == |keys| + 1 && path != null && head != null && depth >= 0 && ran >= 1
    {
    }

    /** The conditions under which an insertion leaves its node behind. */
    lemma Leaves(keys0: seq<Key>, heights0: seq<nat>, key: Key, r: Outcome, q: nat, bits: seq<bool>, rest: seq<bool>,
                 asked0: nat)
      requires 1 <= q <= |keys0| + 1 == |heights0| + 1 && r != Done(true)
      requires Ended(keys0, heights0, null, {}, key, r, q, bits, rest, asked0, 0, true)
      requires grant(asked0) && !grant(asked0 + 1)
      ensures r == NoMemory && node != null && leaked == {} && keys == keys0 && rest == AfterFlip(bits)
              && asked > asked0
    {
    }

    /** set_insert() after a search in vain. */
    method InsertMissing(key: Key, words: seq<nat>) returns (r: Outcome, used: nat)
      requires TotalOrder(cmp) && Valid() && Words(words) && Lands(Stream(ran, words), MAX_LEVELS)
      requires !Member(cmp, keys, key) && PathTo(Rank(cmp, keys, key) + 1)
      modifies this`asked, this`allocs, this`arrays, this`nodes, this`hts, this`depth, this`node, this`leaked,
               this`all, this`keys, this`ran, nodes`right, nodes`fill
      ensures Valid() && used <= |words| && fresh(nodes - old(nodes)) && (r == NoMemory || r == Done(false))
      ensures Ended(old(keys), old(hts)[1..], old(node), old(leaked), key, r, Rank(cmp, old(keys), key) + 1,
                    old(Stream(ran, words)), Stream(ran, words[used..]), old(asked),
                    old(DeepenNeeds(FirstBit(Stream(ran, words)))), true)
    {
      hide Core, Listed, Counted, Owned, Inserted, PathTo, Requested, DeepenNeeds, AfterFlip, FirstBit, Rank,
        StrictlySorted, TotalOrder, Member, Stream, Words;
      ValidGives();
      HeightsCount();
      InsertKeepsSorted(cmp, keys, key);
      r, used := InsertAbsent(key, words, Rank(cmp, keys, key) + 1);
      ValidFrom();
    }

    /** set_insert() after the search: draw the level, then build and link the node. */
    method InsertAbsent(key: Key, words: seq<nat>, ghost q: nat) returns (r: Outcome, used: nat)
      requires Core() && Owned() && 1 <= q <= |hts| && PathTo(q)
      requires node != null ==> node.fill <= |node.right|
      requires 1 <= ran < 2 * WORD && Words(words) && Lands(Stream(ran, words), MAX_LEVELS)
      modifies this`asked, this`allocs, this`arrays, this`nodes, this`hts, this`depth, this`node, this`leaked,
               this`all, this`keys, this`ran, path`right, path`fill, head`fill, all`right
      ensures Core() && Owned() && 1 <= ran < 2 * WORD && used <= |words| && fresh(nodes - old(nodes))
      ensures node != null ==> node.fill <= |node.right|
      ensures r == NoMemory || r == Done(false)
      ensures Effect(old(keys), old(hts)[1..], old(node), old(leaked), key, r, q, FirstBit(old(Stream(ran, words))) + 1)
      ensures Stream(ran, words[used..]) == AfterFlip(old(Stream(ran, words)))
      ensures Requested(old(asked), old(DeepenNeeds(FirstBit(Stream(ran, words)))), old(node), r)
    {
      hide Core, Listed, Counted, Owned, Inserted, Requested, DeepenNeeds;
      ghost var bits := Stream(ran, words);
      var level;
      level, used := NextLevel(words);
      var ok := InsertAt(key, level, q);
      assert FirstOne(bits, level);
      FirstBitIs(bits, level);
      r := if ok then Done(false) else NoMemory;
    }

    /** set_free(n->right) and set_free(n): both blocks must still be live. */
    method Release(n: Node<Key>)
      requires n in nodes && Counted()
      modifies this`nodes, this`arrays, this`allocs
      ensures Counted() && nodes == old(nodes) - {n}
    {
      if n.right != [] {
        arrays := arrays - {n};
        allocs := allocs - 1;
      }
      nodes := nodes - {n};
      allocs := allocs - 1;
    }

    /** The nodes at places 1 to hi - 1. */
    static ghost function Swept(ns: seq<Node<Key>>, hi: nat): set<Node<Key>>
      requires hi <= |ns|
    {
      if hi <= 1 then {} else Swept(ns, hi - 1) + {ns[hi - 1]}
    }

    static lemma {:induction false} NotSwept(ns: seq<Node<Key>>, hi: nat, p: nat)
      requires hi <= |ns| && p < |ns| && (p == 0 || hi <= p)
      requires forall p: nat, r: nat :: p < r < |ns| ==> Differ(ns, p, r)
      ensures ns[p] !in Swept(ns, hi)
    {
      if hi > 1 {
        NotSwept(ns, hi - 1, p);
        assert if p == 0 then Differ(ns, 0, hi - 1) else Differ(ns, hi - 1, p);
      }
    }

    static lemma {:induction false} SweptAll(ns: seq<Node<Key>>, hi: nat)
      requires hi <= |ns|
      ensures forall n :: n in Swept(ns, hi) ==> n in ns
      ensures forall p :: 1 <= p < hi ==> ns[p] in Swept(ns, hi)
    {
      if hi > 1 {
        SweptAll(ns, hi - 1);
      }
    }

    static lemma SweepLeaves(before: set<Node<Key>>, ns: seq<Node<Key>>)
      requires ns != [] && forall p: nat, r: nat :: p < r < |ns| ==> Differ(ns, p, r)
      ensures forall n :: n in before - Swept(ns, |ns|) <==> n in before && (n !in ns || n == ns[0])
    {
      NotSwept(ns, |ns|, 0);
      SweptAll(ns, |ns|);
    }

    /** Level 0 visits every place. */
    lemma NextPlace(at: nat)
      requires Listed() && at < |all|
      ensures all[at].right != [] && all[at].right[0] == all[if at + 1 < |all| then at + 1 else 0]
      ensures at > 0 ==> all[at].key == keys[at - 1] && all[at] != head
    {
      assert NodeAt(all, hts, keys, at) && LinkAt(all, hts, at, 0);
      assert at > 0 ==> Differ(all, 0, at);
    }

    /** One round of set_sweep(): the link is read before the node is released. */
    method SweepOne(step: Node<Key>, ghost at: nat) returns (next: Node?<Key>)
      requires step in nodes && Counted() && step.right != []
      modifies this`nodes, this`arrays, this`allocs, this`dropped
      ensures Counted() && nodes == old(nodes) - {step} && dropped == old(dropped) + [step.key]
      ensures next == step.right[0]
    {
      next := step.right[0];
      dropped := dropped + [step.key];
      Release(step);
    }

    /** The state of set_sweep() before the node at place `at`, which is `step`, is released; behind
        the last place `step` is the head. */
    ghost predicate Sweeping(step: Node?<Key>, at: nat, nodes0: set<Node<Key>>, dropped0: seq<Key>)
      reads this`nodes, this`arrays, this`allocs, this`dropped, this`all, this`hts, this`keys, this`head, this`depth,
            nodes`right, all
    {
      && Listed() && Counted() && (forall n :: n in all ==> n in nodes0)
      && 1 <= at <= |all| && step == all[if at < |all| then at else 0]
      && nodes == nodes0 - Swept(all, at) && dropped == dropped0 + keys[..at - 1]
    }

    /** set_sweep(): one pass along level 0, dropping every key once and freeing every node once. */
    method Sweep()
      requires Listed() && Counted() && (forall n :: n in all ==> n in nodes)
      modifies this`nodes, this`arrays, this`allocs, this`dropped
      ensures Counted() && dropped == old(dropped) + keys
      ensures nodes == old(nodes) - Swept(all, |all|)
    {
      NextPlace(0);
      var step := head.right[0];
      ghost var at, nodes0, dropped0 := 1, nodes, dropped;
      assert Sweeping(step, at, nodes0, dropped0);
      hide Sweeping;
      while step != head
        invariant at <= |all| && Sweeping(step, at, nodes0, dropped0)
        decreases |all| - at
      {
        step := SweepStep(step, at, nodes0, dropped0);
        at := at + 1;
      }
      SweepDone(at, nodes0, dropped0);
    }

    lemma SweepDone(at: nat, nodes0: set<Node<Key>>, dropped0: seq<Key>)
      requires Sweeping(head, at, nodes0, dropped0)
      ensures Counted() && nodes == nodes0 - Swept(all, |all|) && dropped == dropped0 + keys
    {
      if at < |all| {
        NextPlace(at);
      }
      assert keys[..|keys|] == keys;
    }

    static lemma SweptMore(ns: seq<Node<Key>>, nodes0: set<Node<Key>>, at: nat)
      requires 1 <= at < |ns|
      ensures nodes0 - Swept(ns, at + 1) == nodes0 - Swept(ns, at) - {ns[at]}
    {
    }

    /** The node of the round. */
    lemma SweepAt(step: Node<Key>, at: nat, nodes0: set<Node<Key>>, dropped0: seq<Key>)
      requires Sweeping(step, at, nodes0, dropped0) && step != head
      ensures at < |all| == |keys| + 1 && step == all[at] && step in nodes && step.right != [] && all[0] == head
      ensures step.right[0] == all[if at + 1 < |all| then at + 1 else 0] && step.key == keys[at - 1]
      ensures nodes - {step} == nodes0 - Swept(all, at + 1) && keys[..at] == keys[..at - 1] + [step.key]
    {
      NextPlace(at);
      NotSwept(all, at, at);
      SweptMore(all, nodes0, at);
    }

    /** The round for place `at`. */
    method SweepStep(step: Node<Key>, ghost at: nat, ghost nodes0: set<Node<Key>>, ghost dropped0: seq<Key>)
      returns (next: Node?<Key>)
      requires Sweeping(step, at, nodes0, dropped0) && step != head
      modifies this`nodes, this`arrays, this`allocs, this`dropped
      ensures at < |all| && Sweeping(next, at + 1, nodes0, dropped0)
    {
      hide Listed, Counted, Swept;
      SweepAt(step, at, nodes0, dropped0);
      next := SweepOne(step, at);
    }

    /** What is left after the list is gone. */
    ghost predicate Remains()
      reads this`nodes, this`head, this`path, this`node, this`leaked, this`all, this`keys
    {
      && head == null && all == [] && keys == [] && (path == null || path != node)
      && (forall n :: n in nodes ==> n == path || n == node || n in leaked)
      && (forall n :: n in leaked ==> n in nodes && n != path && n != node)
      && (path != null ==> path in nodes) && (node != null ==> node in nodes)
    }

    /** The first part of set_end(): the list and its head. */
    method EndList()
      requires Listed() && Counted() && Owned() && path !in all && node !in all && (path == null || path != node)
      modifies this`head, this`nodes, this`arrays, this`allocs, this`dropped, this`all, this`hts, this`keys
      ensures Counted() && Remains() && dropped == old(dropped) + old(keys)
    {
      ghost var before := nodes;
      Sweep();
      SweepLeaves(before, all);
      DropHead();
    }

    /** Freeing the head once the list is empty. */
    method DropHead()
      requires Counted() && head != null && head in nodes && head != path && head != node
               && (path == null || path != node)
      requires forall n :: n in nodes ==> n == head || n == path || n == node || n in leaked
      requires forall n :: n in leaked ==> n in nodes && n != head && n != path && n != node
      requires (path != null ==> path in nodes) && (node != null ==> node in nodes)
      modifies this`head, this`nodes, this`arrays, this`allocs, this`all, this`hts, this`keys
      ensures Counted() && Remains()
    {
      Release(head);
      head := null;
      all, hts, keys := [], [], [];
    }

    /** The rest of set_end(): path, and the node under construction. */
    method EndRest()
      requires Counted() && Remains()
      modifies this`path, this`node, this`nodes, this`arrays, this`allocs, this`dropped
      ensures path == null && node == null && Counted() && nodes == leaked
      ensures dropped == old(dropped) + old(Pending())
    {
      if path != null {
        Release(path);
        path := null;
      }
      if node != null {
        dropped := dropped + [node.key];
        Release(node);
        node := null;
      }
    }

    /** The key of the node under construction, when there is one. */
    ghost function Pending(): seq<Key>
      reads this`node, One(node)`key
    {
      if node == null then [] else [node.key]
    }

    lemma BlocksOfNodes()
      requires Counted()
      ensures nodes == {} ==> allocs == 0
    {
    }

    /** set_end(): after any operation, failed or not, it releases every block that a pointer of
        the set still reaches, each exactly once, and drops every key once. */
    method End()
      requires Valid() || Partial()
      modifies this`head, this`path, this`node, this`nodes, this`arrays, this`allocs, this`dropped,
               this`all, this`hts, this`keys
      ensures head == null && path == null && node == null && Partial()
      ensures nodes == leaked
      ensures dropped == old(dropped) + old(keys) + old(Pending())
    {
      if head != null {
        assert Valid() ==> NodeAt(all, hts, keys, 0);
        if head.right != [] {
          EndList();
        } else {
          Release(head);
          head := null;
        }
      }
      EndRest();
    }

    /** set_start() on a zeroed or ended set; when it fails, set_end() may still follow. */
    method Start() returns (ok: bool)
      requires Partial() && head == null && path == null
      modifies this`asked, this`allocs, this`arrays, this`nodes, this`head, this`path, this`depth, this`ran,
               this`all, this`hts
      ensures !ok ==> Partial()
      ensures ok ==> Valid() && keys == [] && ran == 1 && depth == 0 && path.right == [] && asked == old(asked) + 3
      ensures ok <==> grant(old(asked)) && grant(old(asked) + 1) && grant(old(asked) + 2)
      ensures fresh(nodes - old(nodes))
    {
      hide *;
      ok := NewPath();
      if ok {
        ok := StartHead();
      }
    }

    method NewPath() returns (ok: bool)
      requires Partial() && head == null && path == null
      modifies this`asked, this`allocs, this`nodes, this`path
      ensures Partial() && (ok <==> path != null) && (ok ==> fresh(path) && path.fill == 0 && path.right == [])
      ensures keys == [] && asked == old(asked) + 1 && (ok <==> grant(old(asked)))
      ensures fresh(nodes - old(nodes))
    {
      path := NewNode();
      assert Counted();
      ok := path != null;
    }

    /** The head of set_start(): one link, back to itself. */
    method StartHead() returns (ok: bool)
      requires Partial() && head == null && path != null && path.fill == 0
      modifies this`asked, this`allocs, this`arrays, this`nodes, this`head, this`depth, this`ran, this`all, this`hts
      ensures !ok ==> Partial()
      ensures ok ==> Valid() && keys == [] && ran == 1 && depth == 0 && path.right == [] && asked == old(asked) + 2
      ensures ok <==> grant(old(asked)) && grant(old(asked) + 1)
      ensures fresh(nodes - old(nodes))
    {
      hide Valid, Owned;
      ok := NewHead();
      if ok {
        ok := Grow(head, 1, true);
        if ok {
          StartList();
        }
      }
    }

    method NewHead() returns (ok: bool)
      requires Partial() && head == null
      modifies this`asked, this`allocs, this`nodes, this`head
      ensures Partial() && (ok <==> head != null) && (ok ==> fresh(head) && head.fill == 0 && head.right == [])
      ensures asked == old(asked) + 1 && (ok <==> grant(old(asked)))
      ensures fresh(nodes - old(nodes))
    {
      var h := NewNode();
      if h == null {
        return false;
      }
      assert h != path && h !in leaked;
      head := h;
      assert Counted();
      ok := true;
    }

    method StartList()
      requires Owned() && Counted() && all == [] && keys == [] && node == null
      requires head != null && head.fill == 1 <= |head.right| && head.right[0] == head
      requires path != null && path != head && path.fill <= |path.right|
      modifies this`depth, this`ran, this`all, this`hts
      ensures Valid() && ran == 1 && depth == 0
    {
      depth, ran := 0, 1;
      all, hts := [head], [1];
      assert Next(hts, 0, 0) == 0;
      assert NodeAt(all, hts, keys, 0) && LinkAt(all, hts, 0, 0);
      assert Listed();
    }
  }

  // ---- whole runs -------------------------------------------------------

  datatype Op<Key> = Look(key: Key) | Add(key: Key)

  /** How often a run may flip coins. */
  function Adds<Key>(ops: seq<Op<Key>>): nat
  {
    if ops == [] then 0 else Adds(ops[..|ops| - 1]) + if ops[|ops| - 1].Add? then 1 else 0
  }

  /** An Add that returned 0 put its key in order; nothing else changes the keys. */
  ghost function After<Key(!new)>(cmp: (Key, Key) -> int, keys: seq<Key>, op: Op<Key>, r: Outcome): seq<Key>
  {
    if op.Add? && r == Done(false) then Inserted(keys, Rank(cmp, keys, op.key), op.key) else keys
  }

  /** The keys after a run. */
  ghost function Replay<Key(!new)>(cmp: (Key, Key) -> int, keys: seq<Key>, ops: seq<Op<Key>>,
                            log: seq<Outcome>): seq<Key>
    requires |ops| == |log|
  {
    if ops == [] then keys else
      var n := |ops| - 1;
      After(cmp, Replay(cmp, keys, ops[..n], log[..n]), ops[n], log[n])
  }

  /** Every call that was not cut short answered whether its key was there at that moment. */
  ghost predicate Truthful<Key(!new)>(cmp: (Key, Key) -> int, keys: seq<Key>, ops: seq<Op<Key>>, log: seq<Outcome>)
    requires |ops| == |log|
  {
    forall i :: 0 <= i < |ops| && log[i].Done? ==>
      log[i].flag == Member(cmp, Replay(cmp, keys, ops[..i], log[..i]), ops[i].key)
  }

  /** The call made a new node current and then failed. */
  ghost predicate MayLeave<Key>(op: Op<Key>, r: Outcome, left: bool)
  {
    left ==> op.Add? && r == NoMemory
  }

  /** The node under construction after a call: the one it left, none after an Add that returned 0,
      and the one from before otherwise. */
  ghost function PendingAfter<Key>(p: seq<Key>, op: Op<Key>, r: Outcome, left: bool): seq<Key>
  {
    if left then [op.key] else if op.Add? && r == Done(false) then [] else p
  }

  /** A call loses a node when it makes another one current, or links another one, while one is
      under construction. */
  ghost predicate Loses<Key>(p: seq<Key>, op: Op<Key>, r: Outcome, left: bool)
  {
    p != [] && (left || (op.Add? && r == Done(false)))
  }

  /** Both over a run. */
  ghost function Pending<Key>(p: seq<Key>, ops: seq<Op<Key>>, log: seq<Outcome>, lefts: seq<bool>): seq<Key>
    requires |ops| == |log| == |lefts|
  {
    if ops == [] then p else
      var n := |ops| - 1;
      PendingAfter(Pending(p, ops[..n], log[..n], lefts[..n]), ops[n], log[n], lefts[n])
  }

  ghost function Lost<Key>(p: seq<Key>, ops: seq<Op<Key>>, log: seq<Outcome>, lefts: seq<bool>): nat
    requires |ops| == |log| == |lefts|
  {
    if ops == [] then 0 else
      var n := |ops| - 1;
      Lost(p, ops[..n], log[..n], lefts[..n])
      + if Loses(Pending(p, ops[..n], log[..n], lefts[..n]), ops[n], log[n], lefts[n]) then 1 else 0
  }

  /** An Add to a set with these keys, heights and nodes, which is going to leave its node or not. */
  method AddStep<Key(0, !new)>(s: SkipSet<Key>, key: Key, words: seq<nat>,
                               ghost keys0: seq<Key>, ghost heights0: seq<nat>,
                               ghost node0: Node?<Key>, ghost leaked0: set<Node<Key>>, ghost bits: seq<bool>,
                               ghost left: bool)
    returns (r: Outcome, used: nat)
    requires TotalOrder(s.cmp) && s.Valid() && Words(words) && |heights0| == |keys0|
    requires keys0 == s.keys && [s.hts[0]] + heights0 == s.hts && node0 == s.node && leaked0 == s.leaked
    requires s.ran >= 1 && bits == Stream(s.ran, words) && left == s.WillLeave(key, words)
    requires Member(s.cmp, keys0, key) || Lands(bits, MAX_LEVELS)
    modifies s`asked, s`allocs, s`arrays, s`nodes, s`hts, s`depth, s`node, s`leaked, s`all, s`keys, s`ran,
             s.nodes`right, s.nodes`fill
    ensures s.Valid() && fresh(s.nodes - old(s.nodes)) && used <= |words|
    ensures r.Done? ==> r.flag == Member(s.cmp, keys0, key)
    ensures left <==> r == NoMemory && s.node != node0
    ensures |s.hts| >= 1 && s.ran >= 1
    ensures s.Effect(keys0, heights0, node0, leaked0, key, r, Rank(s.cmp, keys0, key) + 1, FirstBit(bits) + 1)
    ensures Stream(s.ran, words[used..]) == bits || Stream(s.ran, words[used..]) == AfterFlip(bits)
  {
    s.HeightsCount();
    s.WillLeaveIs(key, words);
    assert heights0 == s.hts[1..];
    hide *;
    ghost var from, need := s.asked + s.PathNeeds(), s.NeedsBehind(FirstBit(bits));
    ghost var searched, member := s.SearchGranted(), Member(s.cmp, keys0, key);
    r, used := s.Insert(key, words);
    s.HeightsCount();
    s.EndedLeaves(keys0, heights0, node0, leaked0, key, r, Rank(s.cmp, keys0, key) + 1, bits,
                  Stream(s.ran, words[used..]), from, need, searched, member);
  }

  /** One call. `left` says that a failed Add left its node under construction. */
  method Step<Key(0, !new)>(s: SkipSet<Key>, op: Op<Key>, words: seq<nat>)
    returns (r: Outcome, used: nat, ghost left: bool)
    requires TotalOrder(s.cmp) && s.Valid() && Words(words)
    requires op.Add? ==> Member(s.cmp, s.keys, op.key) || Lands(Stream(s.ran, words), MAX_LEVELS)
    modifies s, s.nodes
    ensures left <==> op.Add? && old(s.WillLeave(op.key, words))
    ensures s.Valid() && 1 <= s.ran && fresh(s.nodes - old(s.nodes)) && s.dropped == old(s.dropped) && used <= |words|
    ensures s.keys == After(s.cmp, old(s.keys), op, r)
    ensures r.Done? ==> r.flag == Member(s.cmp, old(s.keys), op.key)
    ensures MayLeave(op, r, left) && s.Pending() == PendingAfter(old(s.Pending()), op, r, left)
    ensures left <==> r == NoMemory && s.node != old(s.node)
    ensures |s.leaked| == old(|s.leaked|) + if Loses(old(s.Pending()), op, r, left) then 1 else 0
    ensures Stream(s.ran, words[used..]) == old(Stream(s.ran, words))
         || (op.Add? && Stream(s.ran, words[used..]) == AfterFlip(old(Stream(s.ran, words))))
  {
    hide SkipSet.Core, SkipSet.Listed, SkipSet.Counted, SkipSet.WillLeave, AfterFlip, FirstBit, Stream, Lands, Member,
      Words,
      TotalOrder;
    match op {
      case Look(key) =>
        r := s.Found(key);
        used, left := 0, false;
        assert words[0..] == words;
      case Add(key) =>
        s.HeightsCount();
        left := s.WillLeave(key, words);
        r, used := AddStep(s, key, words, s.keys, s.hts[1..], s.node, s.leaked, Stream(s.ran, words), left);
    }
  }

  lemma TruthfulExtends<Key(!new)>(cmp: (Key, Key) -> int, keys: seq<Key>, ops: seq<Op<Key>>, log: seq<Outcome>,
                            op: Op<Key>, r: Outcome)
    requires |ops| == |log| && Truthful(cmp, keys, ops, log)
    requires r.Done? ==> r.flag == Member(cmp, Replay(cmp, keys, ops, log), op.key)
    ensures Truthful(cmp, keys, ops + [op], log + [r])
    ensures Replay(cmp, keys, ops + [op], log + [r]) == After(cmp, Replay(cmp, keys, ops, log), op, r)
  {
    var ops', log' := ops + [op], log + [r];
    assert ops'[..|ops|] == ops && log'[..|ops|] == log;
    forall t | 0 <= t < |ops'| && log'[t].Done?
      ensures log'[t].flag == Member(cmp, Replay(cmp, keys, ops'[..t], log'[..t]), ops'[t].key)
    {
      if t < |ops| {
        assert ops'[..t] == ops[..t] && log'[..t] == log[..t];
      }
    }
  }

  predicate NoneFails(log: seq<Outcome>)
  {
    forall i :: 0 <= i < |log| ==> log[i].Done?
  }

  /** The run stops at its first allocation failure, if it meets one. */
  predicate OnlyLastFails(log: seq<Outcome>)
  {
    forall i :: 0 <= i < |log| - 1 ==> log[i].Done?
  }

  lemma CoinsLand(bits: seq<bool>, n: nat)
    requires Coins(bits, n + 1, MAX_LEVELS)
    ensures Lands(bits, MAX_LEVELS)
  {
  }

  lemma CoinsStep(bits: seq<bool>, rest: seq<bool>, n: nat)
    requires Coins(bits, n + 1, MAX_LEVELS) && (rest == bits || rest == AfterFlip(bits))
    ensures Coins(rest, n, MAX_LEVELS)
  {
    FewerCoins(bits, n + 1, n, MAX_LEVELS);
  }

  /** Any sequence of calls on a started set, with any pattern of failing allocations, drawing on
      one stream of random words that is good for all insertions (and `more` of them). */
  method Run<Key(0, !new)>(s: SkipSet<Key>, ops: seq<Op<Key>>, words: seq<nat>, ghost more: nat)
    returns (log: seq<Outcome>, used: nat, ghost lefts: seq<bool>)
    requires TotalOrder(s.cmp) && s.Valid() && Words(words)
    requires 1 <= s.ran && Coins(Stream(s.ran, words), Adds(ops) + more, MAX_LEVELS)
    modifies s, s.nodes
    ensures s.Valid() && 1 <= s.ran && |log| == |lefts| == |ops| && used <= |words|
    ensures s.keys == Replay(s.cmp, old(s.keys), ops, log)
    ensures Truthful(s.cmp, old(s.keys), ops, log)
    ensures s.dropped == old(s.dropped)
    ensures forall i :: 0 <= i < |ops| ==> MayLeave(ops[i], log[i], lefts[i])
    ensures s.Pending() == Pending(old(s.Pending()), ops, log, lefts)
    ensures |s.leaked| == old(|s.leaked|) + Lost(old(s.Pending()), ops, log, lefts)
    ensures Coins(Stream(s.ran, words[used..]), more, MAX_LEVELS)
    ensures fresh(s.nodes - old(s.nodes))
  {
    hide SkipSet.Valid, SkipSet.WillLeave, SkipSet.Pending, After, PendingAfter, Loses, AfterFlip, Stream, Coins,
      MayLeave, Lands, Member, TotalOrder, Truthful, Replay, Pending, Lost;
    if ops == [] {
      NoRun(s.cmp, s.keys, s.Pending());
      assert words[0..] == words;
      return [], 0, [];
    }
    var n := |ops| - 1;
    ghost var add := if ops[n].Add? then 1 else 0;
    log, used, lefts := Run(s, ops[..n], words, add + more);
    var rest := words[used..];
    assert forall w :: w in rest ==> w in words;
    ghost var bits := Stream(s.ran, rest);
    if add == 1 {
      CoinsLand(bits, more);
    }
    var r, used', left := Step(s, ops[n], rest);
    if add == 1 {
      CoinsStep(bits, Stream(s.ran, rest[used'..]), more);
    }
    assert rest[used'..] == words[used + used'..];
    TruthfulExtends(s.cmp, old(s.keys), ops[..n], log, ops[n], r);
    RunMore(s.cmp, old(s.keys), old(s.Pending()), ops, log, lefts, r, left);
    log, used, lefts := log + [r], used + used', lefts + [left];
  }

  /** The folds over a run that is one call longer. */
  lemma RunMore<Key(!new)>(cmp: (Key, Key) -> int, keys: seq<Key>, p: seq<Key>, ops: seq<Op<Key>>, log: seq<Outcome>,
                           lefts: seq<bool>, r: Outcome, left: bool)
    requires ops != [] && |log| == |lefts| == |ops| - 1
    ensures var n := |ops| - 1;
      && ops == ops[..n] + [ops[n]]
      && Pending(p, ops, log + [r], lefts + [left]) == PendingAfter(Pending(p, ops[..n], log, lefts), ops[n], r, left)
      && Lost(p, ops, log + [r], lefts + [left])
         == Lost(p, ops[..n], log, lefts) + if Loses(Pending(p, ops[..n], log, lefts), ops[n], r, left) then 1 else 0
  {
    hide PendingAfter, Loses;
    assert (log + [r])[..|log|] == log && (lefts + [left])[..|lefts|] == lefts;
  }

  lemma NoRun<Key(!new)>(cmp: (Key, Key) -> int, keys: seq<Key>, p: seq<Key>)
    ensures Replay(cmp, keys, [], []) == keys && Truthful(cmp, keys, [], [])
    ensures Pending(p, [], [], []) == p && Lost(p, [], [], []) == 0
  {
  }

  /** What a truthful run from the empty set amounts to: the keys stay strictly sorted, and an
      equal of x is present exactly when some Add of an equal of x returned 0. */
  lemma {:induction false} RunIsASet<Key(!new)>(cmp: (Key, Key) -> int, ops: seq<Op<Key>>, log: seq<Outcome>, x: Key)
    requires |ops| == |log| && TotalOrder(cmp) && Truthful(cmp, [], ops, log)
    ensures StrictlySorted(cmp, Replay(cmp, [], ops, log))
    ensures Member(cmp, Replay(cmp, [], ops, log), x)
       <==> exists i :: 0 <= i < |ops| && ops[i].Add? && log[i] == Done(false) && cmp(ops[i].key, x) == 0
  {
    if ops != [] {
      var n := |ops| - 1;
      var ops', log' := ops[..n], log[..n];
      forall i | 0 <= i < n && log'[i].Done?
        ensures log'[i].flag == Member(cmp, Replay(cmp, [], ops'[..i], log'[..i]), ops'[i].key)
      {
        assert ops[..i] == ops'[..i] && log[..i] == log'[..i];
      }
      RunIsASet(cmp, ops', log', x);
      var before := Replay(cmp, [], ops', log');
      if ops[n].Add? && log[n] == Done(false) {
        InsertKeepsSorted(cmp, before, ops[n].key);
        MembersAfterInsert(cmp, before, Rank(cmp, before, ops[n].key), ops[n].key, x);
      }
    }
  }

  /** Without a failure before the last call nothing is lost. */
  lemma {:induction false} NothingLost<Key>(ops: seq<Op<Key>>, log: seq<Outcome>, lefts: seq<bool>)
    requires |ops| == |log| == |lefts| && OnlyLastFails(log) && forall i :: 0 <= i < |ops| ==>
              MayLeave(ops[i], log[i], lefts[i])
    ensures Lost([], ops, log, lefts) == 0 && (NoneFails(log) ==> Pending([], ops, log, lefts) == [])
    decreases |ops|
  {
    if ops != [] {
      var n := |ops| - 1;
      assert NoneFails(log[..n]) by {
        assert forall i :: 0 <= i < n ==> log[..n][i] == log[i];
      }
      NothingLost(ops[..n], log[..n], lefts[..n]);
    }
  }

  /** The life of a set: start, any calls, end.  What stays allocated is one node for every call
      that lost one: so nothing stays if and only if no Add that returned 0, and none that left a
      node, came while an earlier one was under construction.  In particular nothing stays when the
      calls stop at the first failure.  Every key is dropped once, with the one of the node that is
      still under construction at the end. */
  method Lifetime<Key(0, !new)>(cmp: (Key, Key) -> int, grant: nat -> bool, ops: seq<Op<Key>>, words: seq<nat>)
    returns (s: SkipSet<Key>, log: seq<Outcome>, started: bool, ghost lefts: seq<bool>)
    requires TotalOrder(cmp) && Words(words)
    requires Coins(Stream(1, words), Adds(ops), MAX_LEVELS)
    ensures !started ==> s.nodes == {} && s.allocs == 0
    ensures started ==> |log| == |lefts| == |ops| && Truthful(cmp, [], ops, log)
    ensures started ==> forall i :: 0 <= i < |ops| ==> MayLeave(ops[i], log[i], lefts[i])
    ensures started ==> |s.nodes| == Lost([], ops, log, lefts)
    ensures started ==> (s.nodes == {} && s.allocs == 0 <==> Lost([], ops, log, lefts) == 0)
    ensures started && OnlyLastFails(log) ==> s.nodes == {} && s.allocs == 0
    ensures started ==> s.dropped == Replay(cmp, [], ops, log) + Pending([], ops, log, lefts)
  {
    hide SkipSet.Valid, SkipSet.Counted, Coins, Truthful, Lost, Pending, Replay, Stream;
    s := new SkipSet(cmp, grant);
    started := s.Start();
    log, lefts := [], [];
    if started {
      var used;
      log, used, lefts := Run(s, ops, words, 0);
      if OnlyLastFails(log) {
        NothingLost(ops, log, lefts);
      }
    }
    s.End();
    s.BlocksOfNodes();
  }

  /** One more call after a failure that left a node under construction: that node is lost exactly
      when the call returns 0 or leaves a node of its own. */
  method LossAfterRecovery<Key(0, !new)>(s: SkipSet<Key>, op: Op<Key>, words: seq<nat>)
    returns (r: Outcome, ghost left: bool)
    requires TotalOrder(s.cmp) && s.Valid() && Words(words)
    requires op.Add? ==> Member(s.cmp, s.keys, op.key) || Lands(Stream(s.ran, words), MAX_LEVELS)
    requires s.node != null && s.leaked == {}
    modifies s, s.nodes
    ensures left <==> op.Add? && old(s.WillLeave(op.key, words))
    ensures |s.nodes| == if left || (op.Add? && r == Done(false)) then 1 else 0
  {
    var used;
    r, used, left := Step(s, op, words);
    s.End();
  }

  // ---- a loss that happens ----------------------------------------------

  function Difference(a: int, b: int): int { a - b }

  lemma DifferenceOrders()
    ensures TotalOrder(Difference)
  {
  }

  /** All bits of one word are ones. */
  lemma OnesFirst()
    ensures var bits := Stream(1, [WORD - 1]);
      && |bits| >= 2 && bits[0] && bits[1] && FirstBit(bits) == 0 && FirstBit(AfterFlip(bits)) == 0
  {
    var w := WORD - 1;
    assert LowBits(w, 32) == [true] + LowBits(w / 2, 31);
    assert LowBits(w / 2, 31) == [true] + LowBits(w / 4, 30);
    assert WordBits([w]) == LowBits(w, 32) + WordBits([]);
    var bits := Stream(1, [w]);
    assert bits == LowBits(w, 32);
    FirstBitIs(bits, 0);
    FirstBitIs(bits[1..], 0);
  }

  function NotTheSixth(k: nat): bool { k != 5 }

  method Started() returns (s: SkipSet<int>)
    ensures fresh(s) && fresh(s.nodes) && s.Valid() && s.cmp == Difference && s.grant == NotTheSixth && s.keys == []
            && |s.hts| == 1
    ensures s.node == null && s.leaked == {} && s.ran == 1 && s.depth == 0 && s.asked == 3 && s.path.right == []
  {
    s := new SkipSet(Difference, NotTheSixth);
    hide SkipSet.Valid;
    var started := s.Start();
    s.HeightsCount();
  }

  /** When just the sixth allocation is refused, which is the one for the links of the first node,
      the first insertion leaves its node under construction. */
  method LeaveOne() returns (s: SkipSet<int>, rest: seq<nat>, r: Outcome)
    ensures fresh(s) && fresh(s.nodes) && s.Valid() && s.cmp == Difference && s.grant == NotTheSixth && s.keys == []
    ensures r == NoMemory && s.node != null && s.leaked == {} && s.asked >= 6
    ensures 1 <= s.ran && Words(rest) && Lands(Stream(s.ran, rest), MAX_LEVELS)
  {
    DifferenceOrders();
    OnesFirst();
    s := Started();
    var words := [WORD - 1];
    ghost var bits, asked0 := Stream(1, words), s.asked + s.PathNeeds();
    hide SkipSet.Core, SkipSet.Owned, StrictlySorted, TotalOrder, Stream, AfterFlip, SkipSet.Ended, FirstBit;
    var used;
    r, used := s.Insert(7, words);
    rest := words[used..];
    s.Leaves([], [], 7, r, 1, bits, Stream(s.ran, rest), asked0);
  }

  /** The second insertion succeeds, and after set_end() one node is still allocated. */
  method LossHappens() returns (s: SkipSet<int>, first: Outcome, second: Outcome)
    ensures first == NoMemory && second == Done(false) && s.head == null && |s.nodes| == 1
  {
    DifferenceOrders();
    var rest, used;
    s, rest, first := LeaveOne();
    hide TotalOrder, SkipSet.Valid, SkipSet.Partial;
    second, used := s.Insert(8, rest);
    s.End();
  }
}
