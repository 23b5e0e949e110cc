/** Finding the end record from the back of a file: unz64local_SearchCentralDir and
    unz64local_SearchCentralDir64 of ThirdParty/Minizip/unzip.c. */
module ZipSearch {
  import opened ZipFormat

  const BUFREADCOMMENT: nat := 0x400
  const MAX_BACK: nat := 0xffff
  const INVALID: int := -1

  const END_MARK: seq<byte> := [0x50, 0x4b, 0x05, 0x06]
  const LOCATOR_MARK: seq<byte> := [0x50, 0x4b, 0x06, 0x07]

  predicate MarkAt(d: seq<byte>, mark: seq<byte>, k: int)
    requires |mark| == 4
  {
    0 <= k && k + 4 <= |d| && d[k] == mark[0] && d[k + 1] == mark[1] && d[k + 2] == mark[2] && d[k + 3] == mark[3]
  }

  function Reach(d: seq<byte>): nat
  {
    if |d| < MAX_BACK then |d| else MAX_BACK
  }

  /** No mark starts at lo, ..., hi - 1. */
  ghost predicate NoMark(d: seq<byte>, mark: seq<byte>, lo: int, hi: int)
    requires |mark| == 4
  {
    forall k :: lo <= k < hi ==> !MarkAt(d, mark, k)
  }

  /** The greatest position of the mark within the last 65535 bytes; a file of at most four
      bytes is not searched at all. */
  ghost predicate IsLastMark(d: seq<byte>, mark: seq<byte>, r: int)
    requires |mark| == 4
  {
    if |d| <= 4 then r == INVALID
    else if r == INVALID then NoMark(d, mark, |d| - Reach(d), |d|)
    else |d| - Reach(d) <= r && MarkAt(d, mark, r) && NoMark(d, mark, r + 1, |d|)
  }

  /** The search from the back, one position at a time. */
  function ScanBack(d: seq<byte>, mark: seq<byte>, k: int, lo: int): (r: int)
    requires |mark| == 4 && 0 <= lo
    ensures r == INVALID || (lo <= r < k && MarkAt(d, mark, r))
    decreases k
  {
    if k <= lo then INVALID else if MarkAt(d, mark, k - 1) then k - 1 else ScanBack(d, mark, k - 1, lo)
  }

  function LastMark(d: seq<byte>, mark: seq<byte>): int
    requires |mark| == 4
  {
    if |d| <= 4 then INVALID else ScanBack(d, mark, |d|, |d| - Reach(d))
  }

  lemma {:induction false} ScanBackIs(d: seq<byte>, mark: seq<byte>, k: int, lo: int, r: int)
    requires |mark| == 4 && 0 <= lo && NoMark(d, mark, if r == INVALID then lo else r + 1, k)
    requires r == INVALID || (lo <= r < k && MarkAt(d, mark, r))
    ensures ScanBack(d, mark, k, lo) == r
    decreases k
  {
    if k > lo && k - 1 != r {
      assert !MarkAt(d, mark, k - 1);
      ScanBackIs(d, mark, k - 1, lo, r);
    }
  }

  lemma LastMarkIs(d: seq<byte>, mark: seq<byte>, r: int)
    requires |mark| == 4 && IsLastMark(d, mark, r)
    ensures LastMark(d, mark) == r
  {
    if |d| > 4 {
      ScanBackIs(d, mark, |d|, |d| - Reach(d), r);
    }
  }

  /** Scan one buffer from its end; `pos` is where it was read. */
  method ScanBuffer(d: seq<byte>, buf: seq<byte>, mark: seq<byte>, pos: nat) returns (found: int)
    requires |mark| == 4 && pos + |buf| <= |d| && buf == d[pos..pos + |buf|]
    ensures found == INVALID ==> NoMark(d, mark, pos, pos + |buf| - 3)
    ensures found != INVALID ==>
              && pos <= found <= pos + |buf| - 4 && MarkAt(d, mark, found)
              && NoMark(d, mark, found + 1, pos + |buf| - 3)
  {
    var i := |buf| - 3;
    while i > 0
      invariant NoMark(d, mark, pos + i, pos + |buf| - 3)
      invariant i <= |buf| - 3
    {
      i := i - 1;
      assert buf[i] == d[pos + i] && buf[i + 1] == d[pos + i + 1] && buf[i + 2] == d[pos + i + 2]
             && buf[i + 3] == d[pos + i + 3];
      if buf[i] == mark[0] && buf[i + 1] == mark[1] && buf[i + 2] == mark[2] && buf[i + 3] == mark[3] {
        return pos + i;
      }
    }
    found := INVALID;
  }

  /** The loop over overlapping windows of 1028 bytes. */
  method Search(d: seq<byte>, mark: seq<byte>) returns (found: int)
    requires |mark| == 4
    ensures IsLastMark(d, mark, found) && found == LastMark(d, mark)
  {
    var size := |d|;
    var maxBack := MAX_BACK;
    if maxBack > size {
      maxBack := size;
    }
    found := INVALID;
    var backRead := 4;
    while backRead < maxBack
      invariant found == INVALID && 4 <= backRead && (backRead <= maxBack || size <= 4)
      invariant maxBack == Reach(d)
      invariant NoMark(d, mark, size - backRead + (if backRead == 4 then 1 else 0), size)
      decreases maxBack - backRead
    {
      if backRead + BUFREADCOMMENT > maxBack {
        backRead := maxBack;
      } else {
        backRead := backRead + BUFREADCOMMENT;
      }
      var readPos := size - backRead;
      var readSize := if BUFREADCOMMENT + 4 < size - readPos then BUFREADCOMMENT + 4 else size - readPos;
      var buf := d[readPos..readPos + readSize];
      found := ScanBuffer(d, buf, mark, readPos);
      if found != INVALID {
        break;
      }
    }
    LastMarkIs(d, mark, found);
  }

  /** How far back the search reaches: the last 65535 bytes. */
  lemma SearchReaches(d: seq<byte>, mark: seq<byte>, r: int)
    requires |mark| == 4 && IsLastMark(d, mark, r)
    ensures r == INVALID <==> |d| <= 4 || forall k :: 0 <= k < |d| && k >= |d| - 65535 ==> !MarkAt(d, mark, k)
    ensures r != INVALID ==> r >= |d| - 65535
  {
    if r != INVALID {
      assert MarkAt(d, mark, r);
    }
  }
}
