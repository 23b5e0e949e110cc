/** Repairing and then reading: the reader of ThirdParty/Minizip/unzip.c accepts what unzRepair()
    of ThirdParty/Minizip/mztools.c writes. */
module ZipRecover {
  import opened ZipFormat
  import opened ZipSearch
  import opened ZipInfo
  import opened ZipReader
  import opened ZipRecords
  import opened ZipRepair
  import ZipRead

  // ---- where the records lie --------------------------------------------

  /** `all` are the entries of the archive, `es` the first of them. */
  lemma {:induction false} CentralLies(all: seq<Entry>, n: nat, d: seq<byte>, p: nat, i: nat)
    requires n <= |all| && LiesAt(Directory(all[..n]), d, p) && i < n
    ensures LiesAt(Central(all[i], |Locals(all[..i])|), d, p + |Directory(all[..i])|)
    decreases n
  {
    assert all[..n][..n - 1] == all[..n - 1];
    LiesConcat(Directory(all[..n - 1]), Central(all[n - 1], |Locals(all[..n - 1])|), d, p);
    if i < n - 1 {
      CentralLies(all, n - 1, d, p, i);
    }
  }

  lemma {:induction false} PrefixSizes(es: seq<Entry>, i: nat)
    requires i <= |es|
    ensures |Locals(es[..i])| <= |Locals(es)|
    decreases |es| - i
  {
    if i == |es| {
      assert es[..i] == es;
    } else {
      PrefixSizes(es, i + 1);
      assert es[..i + 1][..i] == es[..i];
    }
  }

  lemma DirectoryStep(es: seq<Entry>, i: nat)
    requires i < |es|
    ensures |Directory(es[..i + 1])| == |Directory(es[..i])| + CENTRAL_SIZE + |es[i].name| + |es[i].extra|
  {
    assert es[..i + 1][..i] == es[..i];
  }

  // ---- the headers read back --------------------------------------------

  function InfoOf(e: Entry): Info
  {
    Info(e.version, e.version, e.flag, e.method_, e.time + K64 * e.date, e.crc, |e.name|, |e.extra|, 0, 0, 0)
  }

  /** The row that repairing writes is the one of section 4.3.12. */
  lemma CentralRow(e: Entry, offset: nat)
    requires Fits(e) && offset < K64 * K64
    ensures CentralFields(e, offset) == HeaderFields(InfoOf(e), Big(e.usize, e.csize, offset, 0))
    ensures HeaderInRange(InfoOf(e), Big(e.usize, e.csize, offset, 0))
  {
    var stamp := e.time + K64 * e.date;
    assert Lo(stamp) == e.time && Hi(stamp) == e.date && Lo(0) == 0 && Hi(0) == 0;
  }

  lemma CentralFixed(e: Entry, offset: nat, d: seq<byte>, p: nat)
    requires Fits(e) && offset < K64 * K64 && LiesAt(Shorts(CentralFields(e, offset)), d, p)
    ensures p + CENTRAL_SIZE <= |d| && FixedErr(d, p) == UnzOk && FixedInfo(d, p) == InfoOf(e)
    ensures FixedBig(d, p) == Big(e.usize, e.csize, offset, 0)
  {
    hide *;
    CentralRow(e, offset);
    HeaderReadsBack(InfoOf(e), Big(e.usize, e.csize, offset, 0), d, p);
  }

  /** Well-formed blocks without Zip64 stay so inside a file. */
  lemma {:induction false} PlainShift(a: seq<byte>, q: nat, size: nat, d: seq<byte>, x: nat)
    requires LiesAt(a, d, x) && q + size <= |a| && Plain(a, q, size)
    ensures Plain(d, x + q, size)
    decreases size
  {
    if size > 0 {
      assert forall i :: 0 <= i < |a| ==> d[x..x + |a|][i] == a[i];
      assert U16(d, x + q) == U16(a, q) && U16(d, x + q + 2) == U16(a, q + 2);
      var n := 4 + U16(a, q + 2);
      PlainShift(a, q + n, size - n, d, x);
    }
  }

  /** An entry whose central header the reader takes back unchanged: its extra field is made of
      well-formed blocks without a Zip64 block. */
  predicate Readback(e: Entry)
  {
    Recoverable(e) && Plain(e.extra, 0, |e.extra|)
  }

  /** Reading a header without comment whose extra field is plain. */
  lemma PlainHeader(d: seq<byte>, p: nat, info: Info, big: Big, extra: seq<byte>)
    requires p + CENTRAL_SIZE <= |d| && FixedErr(d, p) == UnzOk && FixedInfo(d, p) == info && FixedBig(d, p) == big
    requires info.commentSize == 0 && info.extraSize == |extra|
    requires LiesAt(extra, d, p + CENTRAL_SIZE + info.nameSize) && Plain(extra, 0, |extra|)
    ensures Lands(d, p) && HeaderAt(d, p) == Header(UnzOk, info, big)
  {
    PlainShift(extra, 0, |extra|, d, p + CENTRAL_SIZE + info.nameSize);
    CompleteExtra(d, p);
  }

  /** The parts of a central header. */
  lemma CentralParts(e: Entry, offset: nat, d: seq<byte>, p: nat)
    requires LiesAt(Central(e, offset), d, p)
    ensures LiesAt(Shorts(CentralFields(e, offset)), d, p)
    ensures LiesAt(e.name, d, p + CENTRAL_SIZE) && LiesAt(e.extra, d, p + CENTRAL_SIZE + |e.name|)
  {
    var row := Shorts(CentralFields(e, offset));
    LiesConcat(row + e.name, e.extra, d, p);
    LiesConcat(row, e.name, d, p);
  }

  lemma CentralReadBack(e: Entry, offset: nat, d: seq<byte>, p: nat)
    requires Readback(e) && offset < K64 * K64 && LiesAt(Central(e, offset), d, p)
    ensures Lands(d, p)
    ensures HeaderAt(d, p) == Header(UnzOk, InfoOf(e), Big(e.usize, e.csize, offset, 0))
    ensures LiesAt(e.name, d, NameAt(d, p))
  {
    CentralParts(e, offset, d, p);
    CentralFixed(e, offset, d, p);
    PlainHeader(d, p, InfoOf(e), Big(e.usize, e.csize, offset, 0), e.extra);
  }

  /** The local entry of `e` agrees with the central header of `f` exactly when methods and name
      sizes are equal, the method is a known one, and CRC and sizes agree or come later. */
  lemma LocalAgrees(e: Entry, f: Entry, offset: nat, d: seq<byte>)
    requires Fits(e) && LiesAt(Local(e), d, offset)
    ensures Coherent(d, offset, InfoOf(f), Big(f.usize, f.csize, offset, 0)) <==>
              && e.method_ == f.method_ && (e.method_ == 0 || e.method_ == 8 || e.method_ == 12)
              && |e.name| == |f.name|
              && (e.flag / 8 % 2 == 1
                  || (e.crc == f.crc && (e.csize == 0xFFFF_FFFF || e.csize == f.csize)
                      && (e.usize == 0xFFFF_FFFF || e.usize == f.usize)))
  {
    LocalParts(e, d, offset);
    hide Coherent;
    CoherentExactly(e, d, offset, InfoOf(f), Big(f.usize, f.csize, offset, 0));
  }

  lemma LocalCoherent(e: Entry, offset: nat, d: seq<byte>)
    requires Readback(e) && LiesAt(Local(e), d, offset)
    ensures Coherent(d, offset, InfoOf(e), Big(e.usize, e.csize, offset, 0)) <==> Supported(e.method_)
    ensures LocalNameSize(d, offset) == |e.name| && LocalExtraSize(d, offset) == |e.extra|
    ensures LiesAt(e.data, d, offset + LOCAL_SIZE + |e.name| + |e.extra|)
  {
    LocalParts(e, d, offset);
    LocalAgrees(e, e, offset, d);
    hide Coherent;
    LocalFixed(e, d, offset);
  }

  // ---- the end record ---------------------------------------------------

  lemma EndReadBack(n: nat, size: nat, offset: nat, d: seq<byte>, p: nat)
    requires n < K64 && size < K64 * K64 && offset < K64 * K64 && LiesAt(EndRecord(n, size, offset), d, p)
    ensures p + END_SIZE <= |d| && U32(d, p) == END_SIG && ReadEnd(d, p) == End(n, size, offset, p)
  {
    hide Shorts, ReadEnd;
    EndReads(EndInfo(0, 0, n, n, size, offset, 0), d, p);
    TwoShorts(EndFields(n, size, offset), d, p, 0, END_SIG);
  }

  lemma EndMarkAt(d: seq<byte>, p: nat)
    requires p + 4 <= |d| && U32(d, p) == END_SIG
    ensures MarkAt(d, END_MARK, p)
  {
  }

  /** Marks behind the start of the last record are marks inside of it. */
  lemma MarksInside(rec: seq<byte>, d: seq<byte>, p: nat)
    requires LiesAt(rec, d, p) && p + |rec| == |d|
    ensures NoMark(d, END_MARK, p + 1, |d|) <==> NoMark(rec, END_MARK, 1, |rec|)
  {
    assert forall i :: 0 <= i < |rec| ==> d[p + i] == rec[i] by {
      assert forall i :: 0 <= i < |rec| ==> d[p..p + |rec|][i] == rec[i];
    }
    assert forall k :: 1 <= k ==> (MarkAt(rec, END_MARK, k) <==> MarkAt(d, END_MARK, p + k));
    if NoMark(rec, END_MARK, 1, |rec|) {
      forall k | p + 1 <= k < |d|
        ensures !MarkAt(d, END_MARK, k)
      {
        assert !MarkAt(rec, END_MARK, k - p);
      }
    }
  }

  /** The four bytes of a number. */
  function ByteIn(n: nat, i: nat): byte
    requires n < TWO32 && i < 4
  {
    if i == 0 then n % 256 else if i == 1 then n / 256 % 256 else if i == 2 then n / K64 % 256 else n / K64 / 256
  }

  lemma FourBytes(n: nat)
    requires n < TWO32
    ensures n == ByteIn(n, 0) + 256 * ByteIn(n, 1) + K64 * ByteIn(n, 2) + 256 * K64 * ByteIn(n, 3)
    ensures ByteOf(Lo(n), 0) == ByteIn(n, 0) && ByteOf(Lo(n), 1) == ByteIn(n, 1)
    ensures ByteOf(Hi(n), 0) == ByteIn(n, 2) && ByteOf(Hi(n), 1) == ByteIn(n, 3)
  {
    var lo, hi := n % K64, n / K64;
    assert lo % 256 == n % 256 && lo / 256 % 256 == n / 256 % 256;
    assert hi / 256 % 256 == hi / 256;
  }

  /** The end record, byte by byte, at the end of the file. */
  ghost predicate EndBytes(n: nat, s: nat, o: nat, d: seq<byte>, p: nat)
    requires n < K64 && s < TWO32 && o < TWO32
  {
    && p + END_SIZE == |d|
    && d[p] == 0x50 && d[p + 1] == 0x4b && d[p + 2] == 0x05 && d[p + 3] == 0x06
    && d[p + 4] == d[p + 5] == d[p + 6] == d[p + 7] == 0
    && d[p + 8] == d[p + 10] == ByteOf(n, 0) && d[p + 9] == d[p + 11] == ByteOf(n, 1)
    && d[p + 12] == ByteIn(s, 0) && d[p + 13] == ByteIn(s, 1) && d[p + 14] == ByteIn(s, 2) && d[p + 15] == ByteIn(s, 3)
    && d[p + 16] == ByteIn(o, 0) && d[p + 17] == ByteIn(o, 1) && d[p + 18] == ByteIn(o, 2) && d[p + 19] == ByteIn(o, 3)
    && d[p + 20] == d[p + 21] == 0
  }

  lemma EndRecordBytes(n: nat, s: nat, o: nat, d: seq<byte>, p: nat)
    requires n < K64 && s < TWO32 && o < TWO32 && LiesAt(EndRecord(n, s, o), d, p) && p + END_SIZE == |d|
    ensures EndBytes(n, s, o, d, p)
  {
    var xs := EndFields(n, s, o);
    FourBytes(s);
    FourBytes(o);
    assert ByteOf(0x4b50, 0) == 0x50 && ByteOf(0x4b50, 1) == 0x4b && ByteOf(0x0605, 0) == 0x05
           && ByteOf(0x0605, 1) == 0x06;
    hide ByteIn, Lo, Hi, ByteOf, Shorts;
    RowBytes(xs, d, p, 0);
    RowBytes(xs, d, p, 1);
    RowBytes(xs, d, p, 2);
    RowBytes(xs, d, p, 3);
    RowBytes(xs, d, p, 4);
    RowBytes(xs, d, p, 5);
    RowBytes(xs, d, p, 6);
    RowBytes(xs, d, p, 7);
    RowBytes(xs, d, p, 8);
    RowBytes(xs, d, p, 9);
    RowBytes(xs, d, p, 10);
    ZeroBytes();
  }

  lemma ZeroBytes()
    ensures ByteOf(0, 0) == 0 && ByteOf(0, 1) == 0
  {
  }

  /** Where a second mark can stand. */
  lemma StrayPlaces(n: nat, s: nat, o: nat, d: seq<byte>, p: nat, k: nat)
    requires n < K64 && s < TWO32 && o < TWO32 && EndBytes(n, s, o, d, p) && 1 <= k && MarkAt(d, END_MARK, p + k)
    ensures 10 <= k <= 16
  {
    hide ByteOf, ByteIn;
  }

  lemma ShortIs(d: seq<byte>, q: nat)
    ensures Short(d, q) == 0 <==> q + 2 > |d| || (d[q] == 0 && d[q + 1] == 0)
  {
  }

  /** A second mark in the number of entries or in the size makes parts of the position be the disk
      numbers, and they are not zero. */
  lemma StrayInSize(n: nat, s: nat, o: nat, d: seq<byte>, p: nat, k: nat)
    requires n < K64 && s < TWO32 && 31 <= o < TWO32 && EndBytes(n, s, o, d, p)
    requires 10 <= k <= 13 && MarkAt(d, END_MARK, p + k)
    ensures ReadEnd(d, p + k) == NoEnd
  {
    FourBytes(o);
    hide ByteOf, ByteIn, Short, Long;
    var q := p + k;
    ShortIs(d, q + 4);
    ShortIs(d, q + 6);
  }

  /** A second mark that begins in the size and ends in the position makes the size too big. */
  lemma StrayAcross(n: nat, s: nat, o: nat, d: seq<byte>, p: nat, k: nat)
    requires n < K64 && s < 0x8000_0000 && o < TWO32 && s < 4 * o && EndBytes(n, s, o, d, p)
    requires 14 <= k <= 15 && MarkAt(d, END_MARK, p + k)
    ensures ReadEnd(d, p + k) == NoEnd
  {
    FourBytes(s);
    FourBytes(o);
    hide ByteOf, ByteIn, Short, Long;
    var q := p + k;
    ShortIs(d, q + 4);
  }

  lemma StrayInPosition(n: nat, s: nat, o: nat, d: seq<byte>, p: nat)
    requires n < K64 && s < TWO32 && o < TWO32 && EndBytes(n, s, o, d, p) && MarkAt(d, END_MARK, p + 16)
    ensures o == END_SIG && ReadEnd(d, p + 16) == End(0, 0, 0, p + 16)
  {
    FourBytes(o);
    hide ByteOf, ByteIn;
    ShortIs(d, p + 20);
  }

  /** What the reader makes of the bytes behind a second mark, with zeros behind the end of the
      file: it accepts them exactly when the mark is the position of the directory. */
  lemma StrayAccepted(n: nat, s: nat, o: nat, d: seq<byte>, p: nat, k: nat)
    requires n < K64 && s < 0x8000_0000 && 31 <= o < 0x8000_0000 && s < 4 * o
    requires EndBytes(n, s, o, d, p) && 1 <= k && MarkAt(d, END_MARK, p + k)
    ensures Acceptable(ReadEnd(d, p + k)) <==> k == 16
    ensures k == 16 ==> o == END_SIG && ReadEnd(d, p + k) == End(0, 0, 0, p + 16)
  {
    StrayPlaces(n, s, o, d, p, k);
    hide EndBytes, ReadEnd, MarkAt;
    if k < 14 {
      StrayInSize(n, s, o, d, p, k);
    } else if k < 16 {
      StrayAcross(n, s, o, d, p, k);
    } else {
      StrayInPosition(n, s, o, d, p);
    }
  }

  /** The mark in the position of the directory is the last one. */
  lemma MarkInPosition(n: nat, s: nat, d: seq<byte>, p: nat)
    requires n < K64 && s < TWO32 && EndBytes(n, s, END_SIG, d, p)
    ensures MarkAt(d, END_MARK, p + 16)
  {
  }

  /** The record that is found at the end of a rebuilt archive.  The greatest mark is the one that
      counts: it is the start of the end record, unless the numbers in the record spell another mark.
      Of those only the one in the position of the directory leads to an acceptable record, and that
      one announces no entries. */
  ghost function FoundEnd(n: nat, size: nat, offset: nat, p: nat): End
  {
    if NoMark(EndRecord(n, size, offset), END_MARK, 1, END_SIZE) then End(n, size, offset, p)
    else if offset == END_SIG then End(0, 0, 0, p + 16)
    else NoEnd
  }

  lemma LastIsEnd(n: nat, size: nat, offset: nat, d: seq<byte>, p: nat)
    requires n < K64 && size < 0x8000_0000 && 31 <= offset < 0x8000_0000 && size < 4 * offset
    requires LiesAt(EndRecord(n, size, offset), d, p) && p + END_SIZE == |d| && p >= offset + size
    ensures var e := ReadEnd(d, LastMark(d, END_MARK));
      FoundEnd(n, size, offset, p) == if Acceptable(e) then e else NoEnd
  {
    EndReadBack(n, size, offset, d, p);
    EndMarkAt(d, p);
    MarksInside(EndRecord(n, size, offset), d, p);
    EndRecordBytes(n, size, offset, d, p);
    hide EndRecord, EndBytes, ReadEnd, MarkAt;
    if NoMark(d, END_MARK, p + 1, |d|) {
      LastMarkIs(d, END_MARK, p);
    } else {
      LastBehind(d, p, |d|, |d| - Reach(d));
      var k := LastMark(d, END_MARK) - p;
      StrayAccepted(n, size, offset, d, p, k);
      if offset == END_SIG {
        MarkInPosition(n, size, d, p);
        StrayPlaces(n, size, offset, d, p, k);
        assert !(k < 16);
      }
    }
  }

  lemma {:induction false} LastBehind(d: seq<byte>, p: nat, k: int, lo: int)
    requires 0 <= lo <= p < k && !NoMark(d, END_MARK, p + 1, k)
    ensures var r := ScanBack(d, END_MARK, k, lo); r > p && MarkAt(d, END_MARK, r) && NoMark(d, END_MARK, r + 1, k)
    decreases k
  {
    if !MarkAt(d, END_MARK, k - 1) {
      var j :| p + 1 <= j < k && MarkAt(d, END_MARK, j);
      LastBehind(d, p, k - 1, lo);
    }
  }

  // ---- the whole archive ------------------------------------------------

  function EndOf(es: seq<Entry>): End
  {
    End(Announced(es), |Directory(es)|, |Locals(es)|, |Locals(es)| + |Directory(es)|)
  }

  /** The archive stays below two gigabytes, as the int counters of unzRepair() demand. */
  predicate Small(es: seq<Entry>)
  {
    |Locals(es)| + |Directory(es)| < 0x8000_0000
  }

  /** The numbers in the end record do not spell its signature again. */
  ghost predicate NoStrayMark(es: seq<Entry>)
  {
    NoMark(EndRecord(Announced(es), |Directory(es)|, |Locals(es)|), END_MARK, 1, END_SIZE)
  }

  lemma ArchiveParts(es: seq<Entry>)
    ensures LiesAt(Locals(es), Archive(es), 0) && LiesAt(Directory(es), Archive(es), |Locals(es)|)
    ensures LiesAt(EndRecord(Announced(es), |Directory(es)|, |Locals(es)|), Archive(es), |Locals(es)| + |Directory(es)|)
    ensures |Archive(es)| == |Locals(es)| + |Directory(es)| + END_SIZE
  {
    var rec := EndRecord(Announced(es), |Directory(es)|, |Locals(es)|);
    var d := Archive(es);
    assert d == Locals(es) + Directory(es) + rec;
    assert d[0..|d|] == d;
    LiesConcat(Locals(es) + Directory(es), rec, d, 0);
    LiesConcat(Locals(es), Directory(es), d, 0);
  }

  lemma DirectoryFits(es: seq<Entry>)
    requires Small(es)
    ensures Acceptable(EndOf(es)) && Before(EndOf(es)) == 0
  {
  }

  lemma FindByRecord(d: seq<byte>)
    requires Search64(d) == INVALID
    ensures var e := ReadEnd(d, LastMark(d, END_MARK)); FindEnd(d) == if Acceptable(e) then e else NoEnd
  {
  }

  predicate AllRecoverable(es: seq<Entry>)
  {
    forall i :: 0 <= i < |es| ==> Recoverable(es[i])
  }

  /** The directory of recoverable entries is not much longer than their local entries. */
  lemma {:induction false} SizesRelate(es: seq<Entry>)
    requires AllRecoverable(es)
    ensures |Locals(es)| >= 31 * |es| && |Directory(es)| <= |Locals(es)| + 16 * |es|
  {
    hide Local, Central;
    if es != [] {
      var n := |es| - 1;
      SizesRelate(es[..n]);
      assert Recoverable(es[n]);
    }
  }

  lemma NothingStray()
    ensures NoStrayMark([])
  {
    var rec := EndRecord(0, 0, 0);
    assert forall i :: 4 <= i < END_SIZE ==> rec[i] == 0;
  }

  /** The end record that the reader finds in a rebuilt archive. */
  ghost function Opening(es: seq<Entry>): End
  {
    if NoStrayMark(es) then EndOf(es)
    else if |Locals(es)| == END_SIG then End(0, 0, 0, |Locals(es)| + |Directory(es)| + 16)
    else NoEnd
  }

  /** A rebuilt archive opens, with no bytes before it, when its end record holds no second mark.
      With one it opens as an archive without entries exactly when the position of the directory is
      that mark, and not at all otherwise.  (A Zip64 locator in the tail would be believed instead.) */
  lemma ArchiveOpens(es: seq<Entry>)
    requires Small(es) && AllRecoverable(es) && Search64(Archive(es)) == INVALID
    ensures FindEnd(Archive(es)) == Opening(es)
    ensures Acceptable(EndOf(es)) && Before(EndOf(es)) == 0
  {
    hide Archive, Locals, Directory, EndRecord, ReadEnd, Search64, LastMark, FindEnd;
    ArchiveParts(es);
    DirectoryFits(es);
    FindByRecord(Archive(es));
    if es == [] {
      EmptyArchive(Archive(es));
    } else {
      SizesRelate(es);
      LastIsEnd(Announced(es), |Directory(es)|, |Locals(es)|, Archive(es), |Locals(es)| + |Directory(es)|);
    }
  }

  lemma EmptyArchive(d: seq<byte>)
    requires d == Archive([])
    ensures NoStrayMark([]) && ReadEnd(d, LastMark(d, END_MARK)) == End(0, 0, 0, 0) == EndOf([])
  {
    var rec := EndRecord(0, 0, 0);
    assert d == rec && d[0..END_SIZE] == rec;
    NothingStray();
    EndReadBack(0, 0, 0, d, 0);
    EndMarkAt(d, 0);
    LastMarkIs(d, END_MARK, 0);
  }

  /** Where the header of entry `i` lies in the archive, and that of its local entry. */
  function CentralPos(es: seq<Entry>, i: nat): nat
    requires i <= |es|
  {
    |Locals(es)| + |Directory(es[..i])|
  }

  function LocalPos(es: seq<Entry>, i: nat): nat
    requires i <= |es|
  {
    |Locals(es[..i])|
  }

  /** What the reader sees of entry `i` when its cursor is on it. */
  function SeenAt(es: seq<Entry>, i: nat): Cursor
    requires i < |es|
  {
    Cursor(i, CentralPos(es, i), true, InfoOf(es[i]), Big(es[i].usize, es[i].csize, LocalPos(es, i), 0))
  }

  /** The reader finds the header of entry `i`, with its name. */
  ghost predicate HeaderSeen(d: seq<byte>, es: seq<Entry>, i: nat)
    requires i < |es|
  {
    && Lands(d, CentralPos(es, i)) && Place(CentralPos(es, i)) == CentralPos(es, i)
    && ParseHeader(d, CentralPos(es, i)) == Header(UnzOk, SeenAt(es, i).info, SeenAt(es, i).big)
    && LiesAt(es[i].name, d, NameAt(d, CentralPos(es, i)))
  }

  /** It finds the local header of entry `i`, which passes the coherency check exactly when the
      method is one the reader knows, and the data behind it. */
  ghost predicate LocalSeen(d: seq<byte>, es: seq<Entry>, i: nat)
    requires i < |es|
  {
    && LiesAt(Local(es[i]), d, LocalPos(es, i))
    && (Coherent(d, LocalPos(es, i), SeenAt(es, i).info, SeenAt(es, i).big) <==> Supported(es[i].method_))
    && LiesAt(es[i].data, d,
              LocalPos(es, i) + LOCAL_SIZE + LocalNameSize(d, LocalPos(es, i)) + LocalExtraSize(d, LocalPos(es, i)))
  }

  ghost predicate Seen(d: seq<byte>, es: seq<Entry>, i: nat)
    requires i < |es|
  {
    HeaderSeen(d, es, i) && LocalSeen(d, es, i)
  }

  lemma HeaderOf(es: seq<Entry>, i: nat, d: File)
    requires i < |es| && Small(es) && Readback(es[i]) && LiesAt(Directory(es), d, |Locals(es)|)
    ensures HeaderSeen(d, es, i)
  {
    assert es[..|es|] == es;
    CentralLies(es, |es|, d, |Locals(es)|, i);
    PrefixSizes(es, i);
    CentralReadBack(es[i], LocalPos(es, i), d, CentralPos(es, i));
    PlaceInside(d, CentralPos(es, i));
  }

  lemma LocalOf(es: seq<Entry>, i: nat, d: seq<byte>)
    requires i < |es| && Readback(es[i]) && LiesAt(Locals(es), d, 0)
    ensures LocalSeen(d, es, i)
  {
    LocalLies(es, d, i);
    LocalCoherent(es[i], LocalPos(es, i), d);
  }

  lemma AllSeen(es: seq<Entry>)
    requires Small(es) && forall e :: e in es ==> Readback(e)
    ensures forall i: nat :: i < |es| ==> Seen(Archive(es), es, i)
  {
    ArchiveParts(es);
    forall i: nat | i < |es|
      ensures Seen(Archive(es), es, i)
    {
      HeaderOf(es, i, Archive(es));
      LocalOf(es, i, Archive(es));
    }
  }

  // ---- walking ----------------------------------------------------------

  /** What opening knows about the archive. */
  predicate OpenedAs(end: End, es: seq<Entry>)
  {
    Acceptable(end) && Before(end) == 0 && end.entries == Announced(es) && end.offset == |Locals(es)|
  }

  lemma StepPos(es: seq<Entry>, i: nat)
    requires i < |es|
    ensures CentralPos(es, i + 1) == CentralPos(es, i) + HeaderSize(InfoOf(es[i]))
  {
    DirectoryStep(es, i);
  }

  lemma WalkStart(d: seq<byte>, end: End, es: seq<Entry>, c: Cursor)
    requires es != [] && OpenedAs(end, es) && HeaderSeen(d, es, 0)
    ensures First(d, end, c) == (UnzOk, SeenAt(es, 0))
  {
  }

  /** From each entry to the following one. */
  lemma WalkStep(d: seq<byte>, end: End, es: seq<Entry>, i: nat)
    requires i + 1 < |es| && OpenedAs(end, es) && HeaderSeen(d, es, i + 1)
    ensures Next(d, end, SeenAt(es, i)) == (UnzOk, SeenAt(es, i + 1))
  {
    StepPos(es, i);
  }

  /** Behind the last entry the walk ends: by the announced number when it is trusted, and by the
      missing magic when there are 0xffff entries or more. */
  ghost predicate Ends(r: (Err, Cursor), es: seq<Entry>)
    requires es != []
  {
    if |es| < 0xffff then r == (EndOfList, SeenAt(es, |es| - 1)) else r.0 == BadZipFile && !r.1.ok
  }

  lemma WalkEnd(d: seq<byte>, end: End, es: seq<Entry>)
    requires es != [] && OpenedAs(end, es) && ParseHeader(d, CentralPos(es, |es|)).err == BadZipFile
    ensures Ends(Next(d, end, SeenAt(es, |es| - 1)), es)
  {
    StepPos(es, |es| - 1);
  }

  /** Behind the directory there is no header but the end record. */
  lemma NoHeaderBehind(es: seq<Entry>)
    requires Small(es)
    ensures ParseHeader(Archive(es), CentralPos(es, |es|)).err == BadZipFile
  {
    ArchiveParts(es);
    assert es[..|es|] == es;
    EndReadBack(Announced(es), |Directory(es)|, |Locals(es)|, Archive(es), CentralPos(es, |es|));
    PlaceInside(Archive(es), CentralPos(es, |es|));
  }

  /** The whole walk, from unzGoToFirstFile() with any cursor to the end of the list, and what
      there is to see on the way. */
  ghost predicate WalksThrough(d: seq<byte>, end: End, es: seq<Entry>)
    requires es != [] && Acceptable(end)
  {
    && (forall c :: First(d, end, c) == (UnzOk, SeenAt(es, 0)))
    && (forall i: nat :: i + 1 < |es| ==> Next(d, end, SeenAt(es, i)) == (UnzOk, SeenAt(es, i + 1)))
    && Ends(Next(d, end, SeenAt(es, |es| - 1)), es)
    && (forall i: nat :: i < |es| ==> Seen(d, es, i))
  }

  lemma WalkAll(d: seq<byte>, end: End, es: seq<Entry>)
    requires es != [] && OpenedAs(end, es) && forall i: nat :: i < |es| ==> Seen(d, es, i)
    requires ParseHeader(d, CentralPos(es, |es|)).err == BadZipFile
    ensures WalksThrough(d, end, es)
  {
    assert Seen(d, es, 0);
    forall c
      ensures First(d, end, c) == (UnzOk, SeenAt(es, 0))
    {
      WalkStart(d, end, es, c);
    }
    forall i: nat | i + 1 < |es|
      ensures Next(d, end, SeenAt(es, i)) == (UnzOk, SeenAt(es, i + 1))
    {
      assert Seen(d, es, i + 1);
      WalkStep(d, end, es, i);
    }
    WalkEnd(d, end, es);
  }

  /** Which end record the reader finds in the rebuilt archive. */
  ghost predicate Opens(es: seq<Entry>)
  {
    Small(es) && Search64(Archive(es)) == INVALID ==> FindEnd(Archive(es)) == Opening(es)
  }

  /** The reader walks through the rebuilt archive, when all extra fields are plain. */
  ghost predicate Reads(es: seq<Entry>)
  {
    Small(es) && es != [] && (forall e :: e in es ==> Readback(e)) ==>
      Acceptable(EndOf(es)) && Before(EndOf(es)) == 0 && WalksThrough(Archive(es), EndOf(es), es)
  }

  lemma RebuiltOpens(es: seq<Entry>)
    requires AllRecoverable(es)
    ensures Opens(es)
  {
    hide Small, Archive, Search64, FindEnd, Opening, EndOf, AllRecoverable;
    if Small(es) && Search64(Archive(es)) == INVALID {
      ArchiveOpens(es);
    }
  }

  lemma AllInRecoverable(es: seq<Entry>)
    requires forall e :: e in es ==> Recoverable(e)
    ensures AllRecoverable(es)
  {
  }

  lemma RebuiltReads(es: seq<Entry>)
    ensures Reads(es)
  {
    hide Archive, Locals, Directory, Readback, WalksThrough, Seen, ParseHeader;
    if Small(es) && es != [] && forall e :: e in es ==> Readback(e) {
      DirectoryFits(es);
      AllSeen(es);
      NoHeaderBehind(es);
      WalkAll(Archive(es), EndOf(es), es);
    }
  }

  /** Repair and read, for any damaged file on which unzRepair() succeeds: the rebuilt archive opens
      with nothing before it, unless its end record or its tail holds a stray mark, and then the
      cursor goes through exactly the recovered entries, in their order and as they were in the
      damaged file, provided that their extra fields are plain. */
  lemma RepairThenRead(input: seq<byte>, mem: nat -> bool)
    requires Recover(input, mem).Entries?
    ensures var es := Recover(input, mem).entries;
      Repair(input, mem) == Repaired(Archive(es), |es|, TotalData(es)) && Kept(input, es) && Opens(es) && Reads(es)
  {
    RepairKeepsEntries(input, mem);
    AllInRecoverable(Recover(input, mem).entries);
    RebuiltOpens(Recover(input, mem).entries);
    RebuiltReads(Recover(input, mem).entries);
  }

  // ---- the directory is well formed -------------------------------------

  lemma LandsInside(d: seq<byte>, p: nat)
    requires Lands(d, p)
    ensures NameInside(d, p) && NameAt(d, p) == p + CENTRAL_SIZE
  {
  }

  lemma {:induction false} CursorOn(d: seq<byte>, end: End, es: seq<Entry>, i: nat)
    requires i < |es| && OpenedAs(end, es) && forall j: nat :: j < |es| ==> Seen(d, es, j)
    ensures PosOf(d, end, i) == CentralPos(es, i) && CursorAt(d, end, i) == SeenAt(es, i) && Readable(d, end, i)
    decreases i
  {
    hide ParseHeader, Lands, NameInside, LocalSeen, Locals, LiesAt;
    assert Seen(d, es, i);
    LandsInside(d, CentralPos(es, i));
    if i > 0 {
      CursorOn(d, end, es, i - 1);
      StepPos(es, i - 1);
    }
  }

  /** The hypotheses under which unzLocateFile() finds entries hold for a rebuilt archive. */
  lemma RebuiltIsWellFormed(es: seq<Entry>)
    requires 1 <= |es| < 0xffff && Small(es) && forall e :: e in es ==> Readback(e)
    ensures WellFormed(Archive(es), EndOf(es))
    ensures forall i: nat :: i < |es| ==> NameOf(Archive(es), EndOf(es), i) == es[i].name
  {
    AllSeen(es);
    DirectoryFits(es);
    NamesRead(Archive(es), EndOf(es), es);
  }

  lemma NamesRead(d: seq<byte>, end: End, es: seq<Entry>)
    requires 1 <= |es| < 0xffff && OpenedAs(end, es) && forall j: nat :: j < |es| ==> Seen(d, es, j)
    ensures WellFormed(d, end)
    ensures forall i: nat :: i < |es| ==> NameOf(d, end, i) == es[i].name
  {
    hide CursorAt, SeenAt, Seen, PosOf, Readable, NameOf;
    forall i: nat | i < |es|
      ensures Readable(d, end, i)
    {
      CursorOn(d, end, es, i);
    }
    forall i: nat | i < |es|
      ensures NameOf(d, end, i) == es[i].name
    {
      NameRead(d, end, es, i);
    }
  }

  lemma NameRead(d: seq<byte>, end: End, es: seq<Entry>, i: nat)
    requires WellFormed(d, end) && i < end.entries && i < |es| && OpenedAs(end, es) && forall j: nat :: j < |es| ==>
              Seen(d, es, j)
    ensures NameOf(d, end, i) == es[i].name
  {
    hide ParseHeader, Lands, NameInside, LocalSeen, Locals, Directory, PosOf, WellFormed;
    assert Seen(d, es, i);
    CursorOn(d, end, es, i);
    NameInHeader(d, CentralPos(es, i), es[i].name);
  }

  lemma NameInHeader(d: seq<byte>, p: nat, name: seq<byte>)
    requires ParseHeader(d, p).err == UnzOk && ParseHeader(d, p).info.nameSize == |name|
             && LiesAt(name, d, NameAt(d, p))
    requires Place(p) == p
    ensures d[NameAt(d, p)..NameAt(d, p) + FixedInfo(d, p).nameSize] == name
  {
  }

  /** Whatever its method is, the `csize` bytes behind the headers of an entry of the rebuilt archive are
      its data: these are what a raw read delivers, and any read of a stored entry. */
  lemma RecoveredContent(es: seq<Entry>, i: nat, tab: ZipRead.ZipCrypt.Table)
    requires i < |es| && Readback(es[i])
    requires es[i].csize < 0x8000_0000 && (es[i].csize == 0 ==> es[i].usize == 0)
    ensures var at := ZipRead.DataAt(Archive(es), LocalPos(es, i));
      && at + es[i].csize <= |Archive(es)|
      && ZipRead.Content(Archive(es), at, es[i].csize, false, tab, []) == es[i].data
  {
    ArchiveParts(es);
    LocalOf(es, i, Archive(es));
    DataRead(Archive(es), es, i, tab);
  }

  lemma DataRead(d: seq<byte>, es: seq<Entry>, i: nat, tab: ZipRead.ZipCrypt.Table)
    requires i < |es| && Recoverable(es[i]) && LocalSeen(d, es, i)
    requires es[i].csize < 0x8000_0000 && (es[i].csize == 0 ==> es[i].usize == 0)
    ensures var at := ZipRead.DataAt(d, LocalPos(es, i));
      && at + es[i].csize <= |d|
      && ZipRead.Content(d, at, es[i].csize, false, tab, []) == es[i].data
  {
  }
}
