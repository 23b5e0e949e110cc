/** File name comparison of ThirdParty/Minizip/unzip.c: strcmpcasenosensitive_internal and
    unzStringFileNameCompare.  A C string is a byte sequence read up to its first NUL; behind the
    end of the sequence a NUL is read. */
module ZipNames {
  import opened CStrings
  import opened ZipFormat

  function CStr(s: seq<byte>): seq<byte>
  {
    UpTo(s, 0)
  }

  function CharZ(s: seq<byte>, i: nat): byte
  {
    if i < |s| then s[i] else 0
  }

  /** The upper-case form of an ASCII letter; `fold` is off for strcmp. */
  function Fold(c: byte, fold: bool): (r: byte)
    ensures r == 0 <==> c == 0
  {
    if fold && 97 <= c <= 122 then c - 0x20 else c
  }

  /** The order of a plain char: signed where it is compared directly, unsigned in strcmp. */
  function Rank(c: byte, fold: bool): int
  {
    if fold && c >= 128 then c - 256 else c
  }

  function Folded(s: seq<byte>, fold: bool): (r: seq<byte>)
    ensures |r| == |s|
    ensures forall i :: 0 <= i < |s| ==> r[i] == Fold(s[i], fold)
  {
    seq(|s|, i requires 0 <= i < |s| => Fold(s[i], fold))
  }

  /** The comparison from position `i` on. */
  function CompareFrom(a: seq<byte>, b: seq<byte>, i: nat, fold: bool): int
    decreases |a| - i
  {
    var c1, c2 := Fold(CharZ(a, i), fold), Fold(CharZ(b, i), fold);
    if c1 == 0 then (if c2 == 0 then 0 else -1)
    else if c2 == 0 then 1
    else if Rank(c1, fold) < Rank(c2, fold) then -1
    else if Rank(c1, fold) > Rank(c2, fold) then 1
    else CompareFrom(a, b, i + 1, fold)
  }

  /** unzStringFileNameCompare(); 1 is case sensitive, and the default on Unix is 1. */
  function Compare(a: seq<byte>, b: seq<byte>, sensitivity: nat): int
  {
    CompareFrom(a, b, 0, sensitivity != 1 && sensitivity != 0)
  }

  method StrCmpCaseNoSensitive(fileName1: seq<byte>, fileName2: seq<byte>) returns (r: int)
    ensures r == CompareFrom(fileName1, fileName2, 0, true)
  {
    var i := 0;
    while true
      invariant i <= |fileName1| && CompareFrom(fileName1, fileName2, 0, true) ==
                CompareFrom(fileName1, fileName2, i, true)
      decreases |fileName1| - i
    {
      var c1, c2 := CharZ(fileName1, i), CharZ(fileName2, i);
      if 97 <= c1 <= 122 {
        c1 := c1 - 0x20;
      }
      if 97 <= c2 <= 122 {
        c2 := c2 - 0x20;
      }
      if c1 == 0 {
        return if c2 == 0 then 0 else -1;
      }
      if c2 == 0 {
        return 1;
      }
      if Rank(c1, true) < Rank(c2, true) {
        return -1;
      }
      if Rank(c1, true) > Rank(c2, true) {
        return 1;
      }
      i := i + 1;
    }
  }

  /** `a` is smaller: it ends at `k`, or has the smaller byte there, after agreeing so far. */
  predicate LexAt(a: seq<byte>, b: seq<byte>, k: nat, fold: bool)
  {
    k <= |a| && k < |b| && a[..k] == b[..k] && (k == |a| || Rank(a[k], fold) < Rank(b[k], fold))
  }

  ghost predicate LexBelow(a: seq<byte>, b: seq<byte>, fold: bool)
  {
    exists k: nat :: LexAt(a, b, k, fold)
  }

  lemma LexStep(x: byte, a: seq<byte>, b: seq<byte>, fold: bool)
    ensures LexBelow([x] + a, [x] + b, fold) <==> LexBelow(a, b, fold)
  {
    var a', b' := [x] + a, [x] + b;
    if k: nat :| LexAt(a, b, k, fold) {
      assert a'[..k + 1] == [x] + a[..k] && b'[..k + 1] == [x] + b[..k];
      assert LexAt(a', b', k + 1, fold);
    }
    if k: nat :| LexAt(a', b', k, fold) {
      assert k > 0;
      assert a[..k - 1] == a'[..k][1..] && b[..k - 1] == b'[..k][1..];
      assert LexAt(a, b, k - 1, fold);
    }
  }

  lemma LexFirst(x: byte, a: seq<byte>, y: byte, b: seq<byte>, fold: bool)
    requires x != y
    ensures LexBelow([x] + a, [y] + b, fold) <==> Rank(x, fold) < Rank(y, fold)
  {
    var a', b' := [x] + a, [y] + b;
    assert a'[0] != b'[0];
    if Rank(x, fold) < Rank(y, fold) {
      assert LexAt(a', b', 0, fold);
    }
  }

  lemma LexEmpty(a: seq<byte>, b: seq<byte>, fold: bool)
    ensures b == [] ==> !LexBelow(a, b, fold)
    ensures a == [] ==> (LexBelow(a, b, fold) <==> b != [])
  {
    if a == [] && b != [] {
      assert LexAt(a, b, 0, fold);
    }
  }

  lemma RankDiffers(x: byte, y: byte, fold: bool)
    ensures Rank(x, fold) == Rank(y, fold) <==> x == y
  {
  }

  /** The comparison is the lexicographic order of the folded names, and 0 means that they agree. */
  lemma {:induction false} CompareIsLex(a: seq<byte>, b: seq<byte>, i: nat, fold: bool)
    requires i <= |a| && i <= |b|
    ensures var x, y := Folded(CStr(a[i..]), fold), Folded(CStr(b[i..]), fold);
      && (CompareFrom(a, b, i, fold) == 0 <==> x == y)
      && (CompareFrom(a, b, i, fold) < 0 <==> LexBelow(x, y, fold))
    decreases |a| - i
  {
    var x, y := Folded(CStr(a[i..]), fold), Folded(CStr(b[i..]), fold);
    var c1, c2 := Fold(CharZ(a, i), fold), Fold(CharZ(b, i), fold);
    LexEmpty(x, y, fold);
    if c1 != 0 && c2 != 0 {
      var x', y' := Folded(CStr(a[i + 1..]), fold), Folded(CStr(b[i + 1..]), fold);
      assert a[i..][1..] == a[i + 1..] && b[i..][1..] == b[i + 1..];
      assert x == [c1] + x' && y == [c2] + y';
      RankDiffers(c1, c2, fold);
      CompareIsLex(a, b, i + 1, fold);
      if c1 == c2 {
        LexStep(c1, x', y', fold);
        assert x == y <==> x' == y' by {
          assert x[1..] == x' && y[1..] == y';
        }
      } else {
        LexFirst(c1, x', c2, y', fold);
        assert x[0] != y[0];
      }
    }
  }

  /** Two bytes that a comparison does not tell apart: equal ones, and, unless the sensitivity is 0 or 1,
      a small letter of ASCII and its capital. */
  predicate SameLetter(x: byte, y: byte, sensitivity: nat)
  {
    x == y || (sensitivity >= 2 && ((97 <= x <= 122 && y == x - 32) || (97 <= y <= 122 && x == y - 32)))
  }

  lemma FoldIdentifies(x: byte, y: byte, sensitivity: nat)
    ensures var fold := sensitivity != 1 && sensitivity != 0;
      Fold(x, fold) == Fold(y, fold) <==> SameLetter(x, y, sensitivity)
  {
  }

  lemma FoldedSame(a: seq<byte>, b: seq<byte>, sensitivity: nat)
    ensures var fold := sensitivity != 1 && sensitivity != 0;
      Folded(a, fold) == Folded(b, fold) <==>
        |a| == |b| && forall k :: 0 <= k < |a| ==> SameLetter(a[k], b[k], sensitivity)
  {
    var fold := sensitivity != 1 && sensitivity != 0;
    var x, y := Folded(a, fold), Folded(b, fold);
    forall k | 0 <= k < |a| && k < |b|
      ensures x[k] == y[k] <==> SameLetter(a[k], b[k], sensitivity)
    {
      FoldIdentifies(a[k], b[k], sensitivity);
    }
    if |a| == |b| && forall k :: 0 <= k < |a| ==> SameLetter(a[k], b[k], sensitivity) {
      assert x == y;
    }
  }

  /** unzStringFileNameCompare() finds two names equal exactly when their bytes are, one by one. */
  lemma ComparesEqual(a: seq<byte>, b: seq<byte>, sensitivity: nat)
    ensures var x, y := CStr(a), CStr(b);
      Compare(a, b, sensitivity) == 0 <==>
      |x| == |y| && forall k :: 0 <= k < |x| ==> SameLetter(x[k], y[k], sensitivity)
  {
    assert a[0..] == a && b[0..] == b;
    CompareIsLex(a, b, 0, sensitivity != 1 && sensitivity != 0);
    FoldedSame(CStr(a), CStr(b), sensitivity);
  }

  /** The order of two single bytes: unsigned in strcmp(), and of signed capitals otherwise. */
  lemma ByteOrder(x: byte, y: byte, sensitivity: nat)
    requires x != 0 && y != 0
    ensures sensitivity <= 1 ==> (Compare([x], [y], sensitivity) < 0 <==> x < y)
    ensures sensitivity >= 2 ==>
              var cx: int := if 97 <= x <= 122 then x - 32 else if x < 128 then x else x - 256;
              var cy: int := if 97 <= y <= 122 then y - 32 else if y < 128 then y else y - 256;
              Compare([x], [y], sensitivity) < 0 <==> cx < cy
  {
    assert CompareFrom([x], [y], 1, false) == 0 && CompareFrom([x], [y], 1, true) == 0;
  }
}
