/** Records of the ZIP format (PKWARE APPNOTE.TXT) as the byte macros of
    ThirdParty/Minizip/mztools.c and the readers of ThirdParty/Minizip/unzip.c see them. */
module ZipFormat {

  type byte = x: int | 0 <= x < 256

  const LOCAL_SIG: nat := 0x04034b50      // section 4.3.7
  const CENTRAL_SIG: nat := 0x02014b50    // section 4.3.12
  const END_SIG: nat := 0x06054b50        // section 4.3.16
  const LOCAL_SIZE: nat := 30
  const CENTRAL_SIZE: nat := 46
  const END_SIZE: nat := 22
  const K64: nat := 0x1_0000
  const TWO32: nat := 0x1_0000_0000
  const TWO64: nat := 0x1_0000_0000_0000_0000

  /** READ_16 and READ_32: little-endian numbers at `p`. */
  function U16(d: seq<byte>, p: nat): (r: nat)
    requires p + 2 <= |d|
    ensures r < K64
  {
    d[p] as nat + 256 * (d[p + 1] as nat)
  }

  function U32(d: seq<byte>, p: nat): (r: nat)
    requires p + 4 <= |d|
    ensures r < K64 * K64
  {
    U16(d, p) + K64 * U16(d, p + 2)
  }

  function U64(d: seq<byte>, p: nat): (r: nat)
    requires p + 8 <= |d|
    ensures r < 0x1_0000_0000_0000_0000
  {
    U32(d, p) + K64 * K64 * U32(d, p + 4)
  }

  /** WRITE_16: the two low bytes, lowest first. */
  function ByteOf(n: nat, i: nat): byte
  {
    if i == 0 then n % 256 else n / 256 % 256
  }

  /** A row of 16-bit fields; WRITE_32 writes two of them, see Lo and Hi. */
  function Shorts(xs: seq<nat>): (r: seq<byte>)
    ensures |r| == 2 * |xs|
  {
    seq(2 * |xs|, i requires 0 <= i < 2 * |xs| => ByteOf(xs[i / 2], i % 2))
  }

  function Lo(n: nat): nat { n % K64 }
  function Hi(n: nat): nat { n / K64 }

  /** The fields that a local header and a central header share, and the stored bytes. */
  datatype Entry = Entry(
    version: nat, flag: nat, method_: nat, time: nat, date: nat,
    crc: nat, csize: nat, usize: nat,
    name: seq<byte>, extra: seq<byte>, data: seq<byte>)

  /** Every number fits its field. */
  predicate Fits(e: Entry)
  {
    && e.version < K64 && e.flag < K64 && e.method_ < K64 && e.time < K64 && e.date < K64
    && e.crc < K64 * K64 && e.csize < K64 * K64 && e.usize < K64 * K64
    && |e.name| < K64 && |e.extra| < K64
  }

  function LocalFields(e: Entry): (r: seq<nat>)
  {
    [0x4b50, 0x0403, e.version, e.flag, e.method_, e.time, e.date, Lo(e.crc), Hi(e.crc),
     Lo(e.csize), Hi(e.csize), Lo(e.usize), Hi(e.usize), |e.name|, |e.extra|]
  }

  function Local(e: Entry): (r: seq<byte>)
    ensures |r| == LOCAL_SIZE + |e.name| + |e.extra| + |e.data|
  {
    Shorts(LocalFields(e)) + e.name + e.extra + e.data
  }

  function CentralFields(e: Entry, offset: nat): seq<nat>
  {
    [0x4b50, 0x0201, e.version, e.version, e.flag, e.method_, e.time, e.date, Lo(e.crc), Hi(e.crc),
     Lo(e.csize), Hi(e.csize), Lo(e.usize), Hi(e.usize), |e.name|, |e.extra|, 0, 0, 0, 0, 0, Lo(offset), Hi(offset)]
  }

  function Central(e: Entry, offset: nat): (r: seq<byte>)
    ensures |r| == CENTRAL_SIZE + |e.name| + |e.extra|
  {
    Shorts(CentralFields(e, offset)) + e.name + e.extra
  }

  function EndFields(entries: nat, size: nat, offset: nat): seq<nat>
  {
    [0x4b50, 0x0605, 0, 0, entries, entries, Lo(size), Hi(size), Lo(offset), Hi(offset), 0]
  }

  function EndRecord(entries: nat, size: nat, offset: nat): (r: seq<byte>)
    ensures |r| == END_SIZE
  {
    Shorts(EndFields(entries, size, offset))
  }

  function Locals(es: seq<Entry>): seq<byte>
  {
    if es == [] then [] else Locals(es[..|es| - 1]) + Local(es[|es| - 1])
  }

  /** The central directory for the entries of the archive that starts with `Locals(es)`. */
  function Directory(es: seq<Entry>): seq<byte>
  {
    if es == [] then [] else
      Directory(es[..|es| - 1]) + Central(es[|es| - 1], |Locals(es[..|es| - 1])|)
  }

  // ---- records inside a file --------------------------------------------

  /** `part` lies in `d` at position `p`. */
  predicate LiesAt(part: seq<byte>, d: seq<byte>, p: nat)
  {
    p + |part| <= |d| && d[p..p + |part|] == part
  }

  lemma LiesConcat(a: seq<byte>, b: seq<byte>, d: seq<byte>, p: nat)
    ensures LiesAt(a + b, d, p) <==> LiesAt(a, d, p) && LiesAt(b, d, p + |a|)
  {
    if LiesAt(a + b, d, p) {
      assert d[p..p + |a|] == d[p..p + |a + b|][..|a|];
      assert d[p + |a|..p + |a + b|] == d[p..p + |a + b|][|a|..];
    }
    if LiesAt(a, d, p) && LiesAt(b, d, p + |a|) {
      assert d[p..p + |a + b|] == d[p..p + |a|] + d[p + |a|..p + |a| + |b|];
    }
  }

  lemma ByteIndex(i: nat)
    ensures 2 * i / 2 == i && 2 * i % 2 == 0 && (2 * i + 1) / 2 == i && (2 * i + 1) % 2 == 1
  {
  }

  /** The two bytes of a field. */
  lemma RowBytes(xs: seq<nat>, d: seq<byte>, p: nat, i: nat)
    requires LiesAt(Shorts(xs), d, p) && i < |xs|
    ensures p + 2 * i + 2 <= |d| && d[p + 2 * i] == ByteOf(xs[i], 0) && d[p + 2 * i + 1] == ByteOf(xs[i], 1)
  {
    hide ByteOf;
    var r := Shorts(xs);
    ByteIndex(i);
    assert d[p + 2 * i] == d[p..p + |r|][2 * i] == r[2 * i];
    assert d[p + 2 * i + 1] == d[p..p + |r|][2 * i + 1] == r[2 * i + 1];
  }

  /** Reading a 16-bit field of a row. */
  lemma ShortAt(xs: seq<nat>, d: seq<byte>, p: nat, i: nat)
    requires LiesAt(Shorts(xs), d, p) && i < |xs|
    ensures U16(d, p + 2 * i) == xs[i] % K64
  {
    hide Shorts, LiesAt;
    RowBytes(xs, d, p, i);
    TwoDigits(xs[i]);
  }

  lemma FieldAt(xs: seq<nat>, d: seq<byte>, p: nat, i: nat)
    requires LiesAt(Shorts(xs), d, p) && i < |xs| && xs[i] < K64
    ensures p + 2 * i + 2 <= |d| && U16(d, p + 2 * i) == xs[i]
  {
    hide Shorts, LiesAt;
    RowBytes(xs, d, p, i);
    ShortAt(xs, d, p, i);
  }

  lemma ShortLies(d: seq<byte>, q: nat, x: nat)
    requires q + 2 <= |d| && U16(d, q) == x % K64
    ensures d[q] == ByteOf(x, 0) && d[q + 1] == ByteOf(x, 1)
  {
    TwoDigits(x);
  }

  lemma TwoDigits(x: nat)
    ensures x % K64 == x % 256 + 256 * (x / 256 % 256)
  {
  }

  /** A row is determined by its fields. */
  lemma ShortsLie(xs: seq<nat>, d: seq<byte>, p: nat)
    requires p + 2 * |xs| <= |d| && forall i :: 0 <= i < |xs| ==> U16(d, p + 2 * i) == xs[i] % K64
    ensures LiesAt(Shorts(xs), d, p)
  {
    var r := Shorts(xs);
    forall j | 0 <= j < |r|
      ensures d[p..p + |r|][j] == r[j]
    {
      var i := j / 2;
      ShortLies(d, p + 2 * i, xs[i]);
      assert j == 2 * i + j % 2;
    }
  }

  lemma LoHi(n: nat)
    requires n < K64 * K64
    ensures Lo(n) % K64 + K64 * (Hi(n) % K64) == n
  {
  }

  /** The row of 16-bit fields found at `p`. */
  function Row(d: seq<byte>, p: nat, n: nat): (r: seq<nat>)
    requires p + 2 * n <= |d|
    ensures |r| == n
    ensures forall i :: 0 <= i < n ==> r[i] == U16(d, p + 2 * i)
  {
    if n == 0 then [] else Row(d, p, n - 1) + [U16(d, p + 2 * (n - 1))]
  }

  lemma RowLies(d: seq<byte>, p: nat, n: nat)
    requires p + 2 * n <= |d|
    ensures LiesAt(Shorts(Row(d, p, n)), d, p)
  {
    ShortsLie(Row(d, p, n), d, p);
  }

  lemma SplitU32(d: seq<byte>, q: nat)
    requires q + 4 <= |d|
    ensures Lo(U32(d, q)) == U16(d, q) && Hi(U32(d, q)) == U16(d, q + 2)
  {
  }
  lemma TwoShorts(xs: seq<nat>, d: seq<byte>, p: nat, i: nat, n: nat)
    requires LiesAt(Shorts(xs), d, p) && i + 1 < |xs| && xs[i] == Lo(n) && xs[i + 1] == Hi(n) && n < K64 * K64
    ensures U32(d, p + 2 * i) == n
  {
    ShortAt(xs, d, p, i);
    ShortAt(xs, d, p, i + 1);
    LoHi(n);
  }

  /** The fields of a local header, as they are read. */
  lemma LocalRow(e: Entry, d: seq<byte>, p: nat)
    requires Fits(e) && LiesAt(Shorts(LocalFields(e)), d, p)
    ensures p + LOCAL_SIZE <= |d| && U32(d, p) == 0x04034b50 && U16(d, p + 4) == e.version && U16(d, p + 6) == e.flag
    ensures U16(d, p + 8) == e.method_ && U16(d, p + 10) == e.time && U16(d, p + 12) == e.date
    ensures U32(d, p + 14) == e.crc
    ensures U32(d, p + 18) == e.csize && U32(d, p + 22) == e.usize && U16(d, p + 26) == |e.name|
    ensures U16(d, p + 28) == |e.extra|
  {
    hide Shorts, LiesAt, U16, U32, LocalFields, Fits;
    LocalFront(e, d, p);
    LocalSizes(e, d, p);
  }

  lemma LocalFront(e: Entry, d: seq<byte>, p: nat)
    requires Fits(e) && LiesAt(Shorts(LocalFields(e)), d, p)
    ensures p + LOCAL_SIZE <= |d| && U32(d, p) == 0x04034b50 && U16(d, p + 4) == e.version && U16(d, p + 6) == e.flag
    ensures U16(d, p + 8) == e.method_ && U16(d, p + 10) == e.time && U16(d, p + 12) == e.date
  {
    var xs := LocalFields(e);
    assert |Shorts(xs)| == LOCAL_SIZE;
    assert Lo(0x04034b50) == 0x4b50 && Hi(0x04034b50) == 0x0403;
    hide Shorts, LiesAt, U16, U32, Lo, Hi;
    TwoShorts(xs, d, p, 0, 0x04034b50);
    FieldAt(xs, d, p, 2);
    FieldAt(xs, d, p, 3);
    FieldAt(xs, d, p, 4);
    FieldAt(xs, d, p, 5);
    FieldAt(xs, d, p, 6);
  }

  lemma LocalSizes(e: Entry, d: seq<byte>, p: nat)
    requires Fits(e) && LiesAt(Shorts(LocalFields(e)), d, p)
    ensures p + LOCAL_SIZE <= |d| && U32(d, p + 14) == e.crc && U32(d, p + 18) == e.csize && U32(d, p + 22) == e.usize
    ensures U16(d, p + 26) == |e.name| && U16(d, p + 28) == |e.extra|
  {
    var xs := LocalFields(e);
    assert |Shorts(xs)| == LOCAL_SIZE;
    hide Shorts, LiesAt, U16, U32, Lo, Hi;
    TwoShorts(xs, d, p, 7, e.crc);
    TwoShorts(xs, d, p, 9, e.csize);
    TwoShorts(xs, d, p, 11, e.usize);
    FieldAt(xs, d, p, 13);
    FieldAt(xs, d, p, 14);
  }

  /** The parts of a local entry. */
  lemma LocalParts(e: Entry, d: seq<byte>, p: nat)
    requires LiesAt(Local(e), d, p)
    ensures LiesAt(Shorts(LocalFields(e)), d, p) && LiesAt(e.name, d, p + LOCAL_SIZE)
    ensures LiesAt(e.extra, d, p + LOCAL_SIZE + |e.name|) && LiesAt(e.data, d, p + LOCAL_SIZE + |e.name| + |e.extra|)
  {
    var row := Shorts(LocalFields(e));
    LiesConcat(row + e.name + e.extra, e.data, d, p);
    LiesConcat(row + e.name, e.extra, d, p);
    LiesConcat(row, e.name, d, p);
  }
}
