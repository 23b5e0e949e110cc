/** The trove of random bits that set_insert() draws levels from
    (ThirdParty/Minizip/skipset.h). */
module SkipRandom {
  import opened Numbers

  const WORD: nat := 0x1_0000_0000

  /** The bits still stored in `ran`, lowest first: everything below the topmost one bit. */
  function Trove(ran: nat): (r: seq<bool>)
    requires ran >= 1
  {
    if ran == 1 then [] else [ran % 2 == 1] + Trove(ran / 2)
  }

  /** The `n` low bits of a word, lowest first. */
  function LowBits(w: nat, n: nat): (r: seq<bool>)
    ensures |r| == n
  {
    if n == 0 then [] else [w % 2 == 1] + LowBits(w / 2, n - 1)
  }

  /** A word with a sentinel bit above it stores exactly the bits of the word. */
  lemma {:induction false} SentinelKeepsBits(w: nat, n: nat)
    requires w < Pow2(n)
    ensures Trove(w + Pow2(n)) == LowBits(w, n)
  {
    if n > 0 {
      var v := w + Pow2(n);
      assert v / 2 == w / 2 + Pow2(n - 1) && v % 2 == w % 2;
      SentinelKeepsBits(w / 2, n - 1);
    }
  }

  predicate Words(words: seq<nat>)
  {
    forall w :: w in words ==> w < WORD
  }

  /** All bits that the generator will deliver. */
  function Stream(ran: nat, words: seq<nat>): (r: seq<bool>)
    requires ran >= 1
  {
    Trove(ran) + WordBits(words)
  }

  function WordBits(words: seq<nat>): (r: seq<bool>)
  {
    if words == [] then [] else LowBits(words[0], 32) + WordBits(words[1..])
  }

  /** The flips end within `limit` bits. */
  predicate Lands(bits: seq<bool>, limit: nat)
  {
    exists i :: 0 <= i < |bits| && i < limit && bits[i]
  }

  /** Refilling an empty trove loses and invents no bit. */
  lemma Refill(words: seq<nat>)
    requires words != [] && words[0] < WORD
    ensures Stream(words[0] + WORD, words[1..]) == Stream(1, words)
  {
    WordIsPow2();
    SentinelKeepsBits(words[0], 32);
  }

  /** The lowest bit of the trove comes first. */
  lemma OneBit(ran: nat, words: seq<nat>)
    requires ran > 1
    ensures Stream(ran, words) == [ran % 2 == 1] + Stream(ran / 2, words)
  {
  }

  /** An empty trove and no more words are no bits. */
  lemma NothingIn(words: seq<nat>)
    requires Stream(1, words) != []
    ensures words != []
  {
  }

  /** The first one bit is at position `level`. */
  predicate FirstOne(bits: seq<bool>, level: nat)
  {
    level < |bits| && bits[level] && forall i :: 0 <= i < level ==> !bits[i]
  }

  /** How many zero bits come before the first one bit. */
  function FirstBit(bits: seq<bool>): (r: nat)
    ensures r <= |bits|
    decreases |bits|
  {
    if bits == [] || bits[0] then 0 else 1 + FirstBit(bits[1..])
  }

  lemma {:induction false} FirstBitIs(bits: seq<bool>, level: nat)
    requires FirstOne(bits, level)
    ensures FirstBit(bits) == level
    decreases level
  {
    if level > 0 {
      FirstBitIs(bits[1..], level - 1);
    }
  }

  /** The bits behind the first one bit. */
  function AfterFlip(bits: seq<bool>): seq<bool>
  {
    if FirstBit(bits) < |bits| then bits[FirstBit(bits) + 1..] else []
  }

  /** The bits are good for `n` flips, each ending within `limit` bits. */
  predicate Coins(bits: seq<bool>, n: nat, limit: nat)
    decreases n
  {
    n == 0 || (Lands(bits, limit) && Coins(AfterFlip(bits), n - 1, limit))
  }

  lemma {:induction false} FewerCoins(bits: seq<bool>, n: nat, m: nat, limit: nat)
    requires Coins(bits, n, limit) && m <= n
    ensures Coins(bits, m, limit)
    decreases m
  {
    hide Lands, AfterFlip;
    if m > 0 {
      FewerCoins(AfterFlip(bits), n - 1, m - 1, limit);
    }
  }

  /** The trove never holds more than one word. */
  lemma {:induction false} TroveIsShort(ran: nat, n: nat)
    requires 1 <= ran < 2 * Pow2(n)
    ensures |Trove(ran)| <= n
  {
    if ran > 1 {
      TroveIsShort(ran / 2, n - 1);
    }
  }

  lemma {:induction false} NonzeroHasBit(w: nat, n: nat) returns (b: nat)
    requires 0 < w < Pow2(n)
    ensures b < n && LowBits(w, n)[b]
  {
    if w % 2 == 1 {
      b := 0;
    } else {
      b := NonzeroHasBit(w / 2, n - 1);
      b := b + 1;
    }
  }

  lemma {:induction false} WordHasBit(words: seq<nat>, j: nat) returns (b: nat)
    requires j < |words| && 0 < words[j] < WORD
    ensures b < 32 * (j + 1) && b < |WordBits(words)| && WordBits(words)[b]
  {
    WordIsPow2();
    if j == 0 {
      b := NonzeroHasBit(words[0], 32);
    } else {
      b := WordHasBit(words[1..], j - 1);
      b := b + 32;
    }
  }

  lemma WordIsPow2()
    ensures Pow2(32) == WORD
  {
    WordSizes();
  }

  /** A nonzero word among the first 511 ends the flips in time, whatever the trove holds. */
  lemma SoonLands(ran: nat, words: seq<nat>, j: nat)
    requires 1 <= ran < 2 * WORD && j < |words| && j < 511 && 0 < words[j] < WORD
    ensures Lands(Stream(ran, words), 16384)
  {
    WordIsPow2();
    TroveIsShort(ran, 32);
    var b := WordHasBit(words, j);
    var bits := Stream(ran, words);
    assert bits[|Trove(ran)| + b];
  }

  lemma {:induction false} FirstBitAt(bits: seq<bool>, i: nat)
    requires i < |bits| && bits[i]
    ensures FirstBit(bits) <= i && bits[FirstBit(bits)]
    decreases i
  {
    if !bits[0] {
      FirstBitAt(bits[1..], i - 1);
    }
  }

  lemma CoinsMore(bits: seq<bool>, n: nat, limit: nat)
    requires n == 0 || (Lands(bits, limit) && Coins(AfterFlip(bits), n - 1, limit))
    ensures Coins(bits, n, limit)
  {
  }

  lemma LandsAt(bits: seq<bool>, k: nat, limit: nat)
    requires k < |bits| && k < limit && bits[k]
    ensures Lands(bits, limit)
  {
  }

  /** A flip that ends in `a`, or else in `f`, where bit `b` is a one. */
  lemma FlipEnds(a: seq<bool>, f: seq<bool>, rest: seq<bool>, b: nat)
    requires b < |f| && f[b]
    ensures var bits := a + (f + rest); var k := FirstBit(bits);
      && k <= |a| + b < |bits| && bits[k]
      && AfterFlip(bits) == if k < |a| then a[k + 1..] + (f + rest) else f[k + 1 - |a|..] + rest
  {
    hide FirstBit;
    var bits := a + (f + rest);
    assert bits[|a| + b] == f[b];
    FirstBitAt(bits, |a| + b);
    var k := FirstBit(bits);
    if k < |a| {
      DropConcat(a, f + rest, k + 1);
    } else {
      DropConcat(a, f + rest, k + 1);
      DropConcat(f, rest, k + 1 - |a|);
    }
  }

  lemma DropConcat(a: seq<bool>, b: seq<bool>, n: nat)
    requires n <= |a + b|
    ensures (a + b)[n..] == if n <= |a| then a[n..] + b else b[n - |a|..]
  {
  }

  predicate Nonzero(words: seq<nat>)
  {
    forall w :: w in words ==> 0 < w < WORD
  }

  /** With a nonzero word behind it the flip ends in the trove or in that word. */
  lemma OneFlip(trove: seq<bool>, words: seq<nat>)
    requires words != [] && 0 < words[0] < WORD
    ensures var bits := trove + WordBits(words); var k := FirstBit(bits);
      && k < |trove| + 32 && k < |bits| && bits[k]
      && AfterFlip(bits) == if k < |trove| then trove[k + 1..] + WordBits(words)
                            else LowBits(words[0], 32)[k + 1 - |trove|..] + WordBits(words[1..])
  {
    hide LowBits, FirstBit, AfterFlip;
    WordIsPow2();
    var b := NonzeroHasBit(words[0], 32);
    FlipEnds(trove, LowBits(words[0], 32), WordBits(words[1..]), b);
  }

  /** One nonzero word for every flip is enough: each flip then ends within 64 bits. */
  lemma {:induction false} NonzeroWords(trove: seq<bool>, words: seq<nat>, n: nat, limit: nat)
    requires limit >= 64 && |trove| <= 32 && |words| >= n && Nonzero(words)
    ensures Coins(trove + WordBits(words), n, limit)
    decreases n
  {
    hide LowBits, WordBits, FirstBit, AfterFlip, Coins, Lands;
    var bits := trove + WordBits(words);
    if n > 0 {
      assert words[0] in words && forall w :: w in words[1..] ==> w in words;
      OneFlip(trove, words);
      var k := FirstBit(bits);
      LandsAt(bits, k, limit);
      if k < |trove| {
        NonzeroWords(trove[k + 1..], words, n - 1, limit);
      } else {
        NonzeroWords(LowBits(words[0], 32)[k + 1 - |trove|..], words[1..], n - 1, limit);
      }
    }
    CoinsMore(bits, n, limit);
  }
}
