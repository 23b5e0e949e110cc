/** Central headers (section 4.3.12 of APPNOTE.TXT) with the Zip64 extra field (section 4.5.3):
    unz64local_GetCurrentFileInfoInternal of ThirdParty/Minizip/unzip.c. */
module ZipInfo {
  import opened ZipFormat

  datatype Err = UnzOk | UnzErrno | BadZipFile | EndOfList | ParamError | CrcError | InternalError

  const MAXU32: nat := 0xFFFF_FFFF
  const MAXU16: nat := 0xFFFF

  datatype Info = Info(
    version: nat, needed: nat, flag: nat, method_: nat, dosDate: nat, crc: nat,
    nameSize: nat, extraSize: nat, commentSize: nat, internalFa: nat, externalFa: nat)

  /** The fields that a Zip64 block may replace; `offset` is offset_curfile. */
  datatype Big = Big(usize: nat, csize: nat, offset: nat, disk: nat)

  // ---- reading numbers from a stream ------------------------------------

  const TWO63: nat := 0x8000_0000_0000_0000

  /** Files are far from the end of the 64-bit positions. */
  type File = d: seq<byte> | |d| < 0x4000_0000_0000_0000

  /** A position as it is passed to a seek. */
  function Place(pos: int): nat
  {
    pos % TWO64
  }

  /** The numbers at `p`.  When the file ends before their last byte they read as 0, and this is
      not an error: UNZ_EOF is UNZ_OK. */
  function Short(d: seq<byte>, p: nat): (r: nat)
    ensures r < K64
  {
    if p + 2 <= |d| then U16(d, p) else 0
  }

  function Long(d: seq<byte>, p: nat): (r: nat)
    ensures r < TWO32
  {
    if p + 4 <= |d| then U32(d, p) else 0
  }

  function Long64(d: seq<byte>, p: nat): (r: nat)
    ensures r < TWO64
  {
    if p + 8 <= |d| then U64(d, p) else 0
  }

  /** Position after asking for `n` bytes at `p`: a short read stops at the end of the file. */
  function After(d: seq<byte>, p: nat, n: nat): nat
  {
    if p + n <= |d| then p + n else if p < |d| then |d| else p
  }

  /** A stream over the bytes of the file. */
  class Stream {
    const data: File
    var at: nat

    constructor (data: File)
      ensures this.data == data && at == 0
    {
      this.data, at := data, 0;
    }

    method GetShort() returns (x: nat)
      modifies this
      ensures x == Short(data, old(at)) && at == After(data, old(at), 2)
    {
      x := Short(data, at);
      at := After(data, at, 2);
    }

    method GetLong() returns (x: nat)
      modifies this
      ensures x == Long(data, old(at)) && at == After(data, old(at), 4)
    {
      x := Long(data, at);
      at := After(data, at, 4);
    }

    method GetLong64() returns (x: nat)
      modifies this
      ensures x == Long64(data, old(at)) && at == After(data, old(at), 8)
    {
      x := Long64(data, at);
      at := After(data, at, 8);
    }

    /** fseeko() to a position of 64 bits, which is taken as a signed number. */
    method Seek(pos: int) returns (ok: bool)
      modifies this
      ensures ok == (Place(pos) < TWO63) && at == if ok then Place(pos) else old(at)
    {
      ok := Place(pos) < TWO63;
      if ok {
        at := Place(pos);
      }
    }

    /** fseeko() by a signed distance. */
    method SeekBy(n: int) returns (ok: bool)
      modifies this
      ensures ok == (old(at) + n >= 0) && at == if ok then old(at) + n else old(at)
    {
      ok := at + n >= 0;
      if ok {
        at := at + n;
      }
    }

    /** fread into the front of a buffer. */
    method Read(buf: array<byte>, n: nat) returns (ok: bool)
      requires n <= buf.Length
      modifies this, buf
      ensures ok == (old(at) + n <= |data|) && at == After(data, old(at), n)
      ensures ok ==> buf[..n] == data[old(at)..old(at) + n]
      ensures forall i :: n <= i < buf.Length ==> buf[i] == old(buf[i])
    {
      ok := at + n <= |data|;
      var i := 0;
      while i < n && at + i < |data|
        modifies buf
        invariant i <= n && (i > 0 ==> at + i <= |data|)
        invariant forall j :: 0 <= j < i ==> buf[j] == data[at + j]
        invariant forall j :: n <= j < buf.Length ==> buf[j] == old(buf[j])
      {
        buf[i] := data[at + i];
        i := i + 1;
      }
      at := After(data, at, n);
    }
  }

  // ---- the fixed part ---------------------------------------------------

  function FixedInfo(d: seq<byte>, p: nat): Info
  {
    Info(Short(d, p + 4), Short(d, p + 6), Short(d, p + 8), Short(d, p + 10), Long(d, p + 12), Long(d, p + 16),
         Short(d, p + 28), Short(d, p + 30), Short(d, p + 32), Short(d, p + 36), Long(d, p + 38))
  }

  function FixedBig(d: seq<byte>, p: nat): Big
  {
    Big(Long(d, p + 24), Long(d, p + 20), Long(d, p + 42), Short(d, p + 34))
  }

  /** The check of the magic, the only one that the fixed part has to pass. */
  function FixedErr(d: seq<byte>, p: nat): Err
  {
    if Long(d, p) == CENTRAL_SIG then UnzOk else BadZipFile
  }

  method ReadFirstHalf(s: Stream) returns (err: Err, info: Info)
    modifies s
    ensures var p := old(s.at);
      && s.at == After(s.data, p, 20) && err == FixedErr(s.data, p)
      && info == FixedInfo(s.data, p).(nameSize := 0, extraSize := 0, commentSize := 0, internalFa := 0,
         externalFa := 0)
  {
    var magic := s.GetLong();
    err := if magic != CENTRAL_SIG then BadZipFile else UnzOk;
    var version := s.GetShort();
    var needed := s.GetShort();
    var flag := s.GetShort();
    var method_ := s.GetShort();
    var dosDate := s.GetLong();
    var crc := s.GetLong();
    info := Info(version, needed, flag, method_, dosDate, crc, 0, 0, 0, 0, 0);
  }

  method ReadSecondHalf(s: Stream, info0: Info) returns (info: Info, big: Big)
    modifies s
    ensures var p := old(s.at);
      && s.at == After(s.data, p, 26)
      && info == info0.(nameSize := Short(s.data, p + 8), extraSize := Short(s.data, p + 10),
                        commentSize := Short(s.data, p + 12), internalFa := Short(s.data, p + 16),
                        externalFa := Long(s.data, p + 18))
      && big == Big(Long(s.data, p + 4), Long(s.data, p), Long(s.data, p + 22), Short(s.data, p + 14))
  {
    var csize := s.GetLong();
    var usize := s.GetLong();
    var nameSize := s.GetShort();
    var extraSize := s.GetShort();
    var commentSize := s.GetShort();
    var disk := s.GetShort();
    var internalFa := s.GetShort();
    var externalFa := s.GetLong();
    var offset := s.GetLong();
    info := info0.(nameSize := nameSize, extraSize := extraSize, commentSize := commentSize,
                   internalFa := internalFa, externalFa := externalFa);
    big := Big(usize, csize, offset, disk);
  }

  /** Magic and fixed fields of the header at the current position of the stream. */
  method ReadFixed(s: Stream) returns (err: Err, info: Info, big: Big)
    modifies s
    ensures var p := old(s.at);
      && s.at == After(s.data, p, CENTRAL_SIZE) && err == FixedErr(s.data, p)
      && info == FixedInfo(s.data, p) && big == FixedBig(s.data, p)
  {
    err, info := ReadFirstHalf(s);
    info, big := ReadSecondHalf(s, info);
  }

  // ---- the extra field --------------------------------------------------

  /** Stream position and replaceable fields. */
  datatype Parse = Parse(at: nat, big: Big)

  function TakeUsize(d: seq<byte>, st: Parse): Parse
  {
    if st.big.usize != MAXU32 then st else Parse(After(d, st.at, 8), st.big.(usize := Long64(d, st.at)))
  }

  function TakeCsize(d: seq<byte>, st: Parse): Parse
  {
    if st.big.csize != MAXU32 then st else Parse(After(d, st.at, 8), st.big.(csize := Long64(d, st.at)))
  }

  function TakeOffset(d: seq<byte>, st: Parse): Parse
  {
    if st.big.offset != MAXU32 then st else Parse(After(d, st.at, 8), st.big.(offset := Long64(d, st.at)))
  }

  function TakeDisk(d: seq<byte>, st: Parse): Parse
  {
    if st.big.disk != MAXU16 then st else Parse(After(d, st.at, 4), st.big.(disk := Long(d, st.at)))
  }

  /** The body of a Zip64 block: only saturated fields are present. */
  function Take64(d: seq<byte>, st: Parse): Parse
  {
    TakeDisk(d, TakeOffset(d, TakeCsize(d, TakeUsize(d, st))))
  }

  /** One turn of the loop over the blocks. */
  function OneBlock(d: seq<byte>, st: Parse): Parse
  {
    var p1 := After(d, st.at, 2);
    var p2 := After(d, p1, 2);
    if Short(d, st.at) == 1 then Take64(d, Parse(p2, st.big)) else Parse(p2 + Short(d, p1), st.big)
  }

  function BlockSize(d: seq<byte>, st: Parse): nat
  {
    4 + Short(d, After(d, st.at, 2))
  }

  function Blocks(d: seq<byte>, st: Parse, acc: nat, total: nat): Parse
    decreases total - acc
  {
    if acc >= total then st else Blocks(d, OneBlock(d, st), acc + BlockSize(d, st), total)
  }

  method ReadZip64(s: Stream, big0: Big) returns (big: Big)
    modifies s
    ensures Parse(s.at, big) == Take64(s.data, Parse(old(s.at), big0))
  {
    big := big0;
    var x;
    if big.usize == MAXU32 {
      x := s.GetLong64();
      big := big.(usize := x);
    }
    if big.csize == MAXU32 {
      x := s.GetLong64();
      big := big.(csize := x);
    }
    if big.offset == MAXU32 {
      x := s.GetLong64();
      big := big.(offset := x);
    }
    if big.disk == MAXU16 {
      x := s.GetLong();
      big := big.(disk := x);
    }
  }

  method ReadBlock(s: Stream, big0: Big) returns (big: Big, size: nat)
    modifies s
    ensures var st := Parse(old(s.at), big0);
      Parse(s.at, big) == OneBlock(s.data, st) && size == BlockSize(s.data, st)
  {
    big := big0;
    var id := s.GetShort();
    var dataSize := s.GetShort();
    if id == 1 {
      big := ReadZip64(s, big);
    } else {
      var ok := s.SeekBy(dataSize);
    }
    size := 4 + dataSize;
  }

  method ReadBlocks(s: Stream, big0: Big, total: nat) returns (big: Big)
    modifies s
    ensures Parse(s.at, big) == Blocks(s.data, Parse(old(s.at), big0), 0, total)
  {
    hide OneBlock;
    big := big0;
    var acc := 0;
    while acc < total
      invariant Blocks(s.data, Parse(old(s.at), big0), 0, total) == Blocks(s.data, Parse(s.at, big), acc, total)
      decreases total - acc
    {
      var size;
      big, size := ReadBlock(s, big);
      acc := acc + size;
    }
  }

  // ---- well-formed extra fields -----------------------------------------

  function Need(big: Big): nat
  {
    (if big.usize == 0xFFFF_FFFF then 8 else 0) + (if big.csize == 0xFFFF_FFFF then 8 else 0) +
    (if big.offset == 0xFFFF_FFFF then 8 else 0) + (if big.disk == 0xFFFF then 4 else 0)
  }

  /** The values that the Zip64 block with its data at `p` gives to the saturated fields, in the
      order of section 4.5.3. */
  function Substituted(d: seq<byte>, p: nat, big: Big): Big
    requires p + Need(big) <= |d|
  {
    var pc := p + if big.usize == 0xFFFF_FFFF then 8 else 0;
    var po := pc + if big.csize == 0xFFFF_FFFF then 8 else 0;
    var pd := po + if big.offset == 0xFFFF_FFFF then 8 else 0;
    Big(if big.usize == 0xFFFF_FFFF then U64(d, p) else big.usize,
        if big.csize == 0xFFFF_FFFF then U64(d, pc) else big.csize,
        if big.offset == 0xFFFF_FFFF then U64(d, po) else big.offset,
        if big.disk == 0xFFFF then U32(d, pd) else big.disk)
  }

  /** Blocks fill `size` bytes at `p` exactly; none is a Zip64 block. */
  predicate Plain(d: seq<byte>, p: nat, size: nat)
    decreases size
  {
    size == 0 ||
    (size >= 4 && p + size <= |d| && U16(d, p) != 1 && 4 + U16(d, p + 2) <= size
     && Plain(d, p + 4 + U16(d, p + 2), size - 4 - U16(d, p + 2)))
  }

  /** Blocks fill `size` bytes at `p` exactly, with one Zip64 block at `z` that holds just the
      saturated fields. */
  predicate WithZip64(d: seq<byte>, p: nat, size: nat, z: nat, big: Big)
    decreases size
  {
    size >= 4 && p + size <= |d| && 4 + U16(d, p + 2) <= size &&
    var n := 4 + U16(d, p + 2);
    if U16(d, p) == 1 then z == p && U16(d, p + 2) == Need(big) && Plain(d, p + n, size - n)
    else WithZip64(d, p + n, size - n, z, big)
  }

  lemma {:induction false} PlainBlocks(d: seq<byte>, st: Parse, acc: nat, size: nat)
    requires Plain(d, st.at, size)
    ensures Blocks(d, st, acc, acc + size) == st.(at := st.at + size)
    decreases size
  {
    if size > 0 {
      var n := 4 + U16(d, st.at + 2);
      assert OneBlock(d, st) == st.(at := st.at + n) && BlockSize(d, st) == n;
      PlainBlocks(d, OneBlock(d, st), acc + n, size - n);
      assert acc + n + (size - n) == acc + size;
    }
  }

  lemma Take64Is(d: seq<byte>, st: Parse)
    requires st.at + Need(st.big) <= |d|
    ensures Take64(d, st) == Parse(st.at + Need(st.big), Substituted(d, st.at, st.big))
  {
  }

  /** The turn of the loop at a Zip64 block that holds just the saturated fields. */
  lemma Zip64Turn(d: seq<byte>, st: Parse)
    requires st.at + 4 <= |d| && U16(d, st.at) == 1 && U16(d, st.at + 2) == Need(st.big)
             && st.at + 4 + Need(st.big) <= |d|
    ensures OneBlock(d, st) == Parse(st.at + 4 + Need(st.big), Substituted(d, st.at + 4, st.big))
  {
    Take64Is(d, st.(at := st.at + 4));
  }

  lemma PlainTurn(d: seq<byte>, st: Parse)
    requires st.at + 4 <= |d| && U16(d, st.at) != 1
    ensures OneBlock(d, st) == st.(at := st.at + 4 + U16(d, st.at + 2))
  {
  }

  lemma {:induction false} Zip64Blocks(d: seq<byte>, st: Parse, acc: nat, size: nat, z: nat)
    requires WithZip64(d, st.at, size, z, st.big)
    ensures z + 4 + Need(st.big) <= |d|
    ensures Blocks(d, st, acc, acc + size) == Parse(st.at + size, Substituted(d, z + 4, st.big))
    decreases size
  {
    var n := 4 + U16(d, st.at + 2);
    var next := OneBlock(d, st);
    assert BlockSize(d, st) == n;
    assert acc + n + (size - n) == acc + size;
    if U16(d, st.at) == 1 {
      Zip64Turn(d, st);
      PlainBlocks(d, next, acc + n, size - n);
    } else {
      PlainTurn(d, st);
      Zip64Blocks(d, next, acc + n, size - n, z);
    }
  }

  // ---- the whole parser -------------------------------------------------

  /** What the parser returns when the caller passes no buffers. */
  datatype Header = Header(err: Err, info: Info, big: Big)

  /** Behind the fixed fields, as far as the file goes. */
  function NameAt(d: seq<byte>, p: nat): nat { After(d, p, CENTRAL_SIZE) }

  function ExtraAt(d: seq<byte>, p: nat): nat { NameAt(d, p) + FixedInfo(d, p).nameSize }

  function CommentAt(d: seq<byte>, p: nat): nat { ExtraAt(d, p) + FixedInfo(d, p).extraSize }

  /** Stream and fields after the blocks of the extra field. */
  function Extras(d: seq<byte>, p: nat): Parse
  {
    Blocks(d, Parse(ExtraAt(d, p), FixedBig(d, p)), 0, FixedInfo(d, p).extraSize)
  }

  const NO_INFO: Info := Info(0, 0, 0, 0, 0, 0, 0, 0, 0, 0, 0)
  const NO_BIG: Big := Big(0, 0, 0, 0)

  function HeaderAt(d: seq<byte>, p: nat): Header
  {
    if FixedErr(d, p) == UnzOk then Header(UnzOk, FixedInfo(d, p), Extras(d, p).big)
    else Header(FixedErr(d, p), NO_INFO, NO_BIG)
  }

  /** The header that a seek to `pos` leads to. */
  function ParseHeader(d: seq<byte>, pos: nat): Header
  {
    if Place(pos) < TWO63 then HeaderAt(d, Place(pos)) else Header(UnzErrno, NO_INFO, NO_BIG)
  }

  /** Inside the file a header is looked for where it is asked for. */
  lemma PlaceInside(d: File, p: nat)
    requires p <= |d|
    ensures Place(p) == p && ParseHeader(d, p) == HeaderAt(d, p)
  {
  }

  /** A header with all of its fields inside the file and a well-formed extra field. */
  ghost predicate Complete(d: seq<byte>, p: nat)
  {
    && FixedErr(d, p) == UnzOk && p + CENTRAL_SIZE <= |d|
    && CommentAt(d, p) + FixedInfo(d, p).commentSize <= |d|
    && (Plain(d, ExtraAt(d, p), FixedInfo(d, p).extraSize)
        || exists z: nat :: WithZip64(d, ExtraAt(d, p), FixedInfo(d, p).extraSize, z, FixedBig(d, p)))
  }

  /** The name lies in the file, and the blocks of the extra field lead exactly to its end. */
  ghost predicate Lands(d: seq<byte>, p: nat)
  {
    && FixedErr(d, p) == UnzOk && p + CENTRAL_SIZE <= |d|
    && CommentAt(d, p) + FixedInfo(d, p).commentSize <= |d| && Extras(d, p).at == CommentAt(d, p)
  }

  /** A well-formed Zip64 block replaces exactly the saturated fields; without one nothing changes.
      Either way the stream ends up behind the extra field. */
  lemma CompleteExtra(d: seq<byte>, p: nat)
    requires Complete(d, p)
    ensures Lands(d, p)
    ensures var x, n, big := ExtraAt(d, p), FixedInfo(d, p).extraSize, FixedBig(d, p);
      && var st := Extras(d, p);
      && HeaderAt(d, p) == Header(UnzOk, FixedInfo(d, p), st.big)
      && (Plain(d, x, n) ==> st.big == big)
      && (forall z: nat :: WithZip64(d, x, n, z, big) ==>
            z + 4 + Need(big) <= |d| && st.big == Substituted(d, z + 4, big))
  {
    var x, n, big := ExtraAt(d, p), FixedInfo(d, p).extraSize, FixedBig(d, p);
    if Plain(d, x, n) {
      PlainBlocks(d, Parse(x, big), 0, n);
    }
    forall z: nat | WithZip64(d, x, n, z, big)
      ensures z + 4 + Need(big) <= |d|
      ensures Blocks(d, Parse(x, big), 0, n) == Parse(x + n, Substituted(d, z + 4, big))
    {
      Zip64Blocks(d, Parse(x, big), 0, n, z);
    }
  }

  // ---- with the caller's buffers ----------------------------------------

  function Min(a: nat, b: nat): nat { if a < b then a else b }

  /** The bytes of a field of `size` bytes at `at` that go into the buffer are all in the file. */
  predicate Room(d: seq<byte>, at: nat, size: nat, buf: array?<byte>)
  {
    buf == null || Min(size, buf.Length) == 0 || at + Min(size, buf.Length) <= |d|
  }

  /** The caller's buffer after a field of `size` bytes at `p` was read into it: the part that fits,
      a NUL behind it when asked for and possible, and nothing else touched. */
  ghost predicate Filled(d: seq<byte>, p: nat, size: nat, nul: bool, buf: seq<byte>, was: seq<byte>)
  {
    var n := Min(size, |buf|);
    && |buf| == |was| && (n == 0 || (p + n <= |d| && buf[..n] == d[p..p + n]))
    && (nul && size < |buf| ==> buf[size] == 0)
    && forall i :: n <= i < |buf| && !(nul && i == size) ==> buf[i] == was[i]
  }

  /** Read the field at the current position; `lSeek` is what it has beyond the buffer. */
  method ReadField(s: Stream, buf: array<byte>, size: nat, nul: bool) returns (ok: bool, lSeek: nat)
    modifies s, buf
    ensures ok == Room(s.data, old(s.at), size, buf)
    ensures ok ==> s.at + lSeek == old(s.at) + size && Filled(s.data, old(s.at), size, nul, buf[..], old(buf[..]))
  {
    var sizeRead := buf.Length;
    if size < buf.Length {
      if nul {
        buf[size] := 0;
      }
      sizeRead := size;
    }
    ok := true;
    if size > 0 && buf.Length > 0 {
      ok := s.Read(buf, sizeRead);
    }
    lSeek := size - sizeRead;
  }

  /** if (lSeek != 0) seek by it. */
  method SkipAhead(s: Stream, lSeek: int)
    requires s.at + lSeek >= 0
    modifies s
    ensures s.at == old(s.at) + lSeek
  {
    if lSeek != 0 {
      var ok := s.SeekBy(lSeek);
    }
  }

  method NameStage(s: Stream, name: array?<byte>, size: nat, err0: Err) returns (err: Err, lSeek: int)
    modifies s, name
    ensures err0 != UnzOk ==> err == err0
    ensures err0 == UnzOk ==> err == if Room(s.data, old(s.at), size, name) then UnzOk else UnzErrno
    ensures err == UnzOk ==> lSeek >= 0 && s.at + lSeek == old(s.at) + size
    ensures err == UnzOk && name != null ==> Filled(s.data, old(s.at), size, true, name[..], old(name[..]))
  {
    err, lSeek := err0, size;
    if err == UnzOk && name != null {
      var ok;
      ok, lSeek := ReadField(s, name, size, true);
      if !ok { err := UnzErrno; }
    }
  }

  method ExtraStage(s: Stream, extra: array?<byte>, size: nat, err0: Err, lSeek0: int) returns (err: Err, lSeek: int)
    requires err0 == UnzOk ==> lSeek0 >= 0
    modifies s, extra
    ensures err0 != UnzOk ==> err == err0
    ensures err0 == UnzOk ==> err == if Room(s.data, old(s.at) + lSeek0, size, extra) then UnzOk else UnzErrno
    ensures err == UnzOk ==> s.at + lSeek - size >= 0 && s.at + lSeek == old(s.at) + lSeek0 + size
    ensures err == UnzOk && extra != null ==>
              Filled(s.data, old(s.at) + lSeek0, size, false, extra[..], old(extra[..]))
  {
    err, lSeek := err0, lSeek0;
    if err == UnzOk && extra != null {
      SkipAhead(s, lSeek);
      var ok;
      ok, lSeek := ReadField(s, extra, size, false);
      if !ok { err := UnzErrno; }
    } else {
      lSeek := lSeek + size;
    }
  }

  /** Back to the start of the extra field, whose end is lSeek0 away, and through its blocks. */
  method BlocksStage(s: Stream, size: nat, err: Err, lSeek0: int, big0: Big) returns (lSeek: int, big: Big)
    requires err == UnzOk ==> s.at + lSeek0 - size >= 0
    modifies s
    ensures err == UnzOk ==> s.at + lSeek >= 0
    ensures err == UnzOk ==> Parse(s.at + lSeek, big) == Blocks(s.data, Parse(old(s.at) + lSeek0 - size, big0), 0, size)
  {
    lSeek, big := lSeek0, big0;
    if err == UnzOk && size != 0 {
      SkipAhead(s, lSeek - size);
      lSeek := 0;
      big := ReadBlocks(s, big, size);
    }
  }

  method CommentStage(s: Stream, comment: array?<byte>, size: nat, err0: Err, lSeek: int) returns (err: Err)
    requires err0 == UnzOk ==> s.at + lSeek >= 0
    modifies s, comment
    ensures err0 != UnzOk ==> err == err0
    ensures err0 == UnzOk ==> err == if Room(s.data, old(s.at) + lSeek, size, comment) then UnzOk else UnzErrno
    ensures err == UnzOk && comment != null ==>
              Filled(s.data, old(s.at) + lSeek, size, true, comment[..], old(comment[..]))
  {
    err := err0;
    if err == UnzOk && comment != null {
      SkipAhead(s, lSeek);
      var ok, more := ReadField(s, comment, size, true);
      if !ok { err := UnzErrno; }
    }
  }

  /** The header at `p` has all the bytes that the buffers are to receive.  The comment is read from
      where the blocks of the extra field end. */
  predicate Rooms(d: seq<byte>, p: nat, name: array?<byte>, extra: array?<byte>, comment: array?<byte>)
  {
    var info := FixedInfo(d, p);
    && Room(d, NameAt(d, p), info.nameSize, name) && Room(d, ExtraAt(d, p), info.extraSize, extra)
    && Room(d, Extras(d, p).at, info.commentSize, comment)
  }

  /** The variable fields of the header at `p`, whose fixed part was read. */
  method GetVariable(s: Stream, err0: Err, ghost p: nat, info: Info, big0: Big,
                     name: array?<byte>, extra: array?<byte>, comment: array?<byte>) returns (err: Err, big: Big)
    requires s.at == NameAt(s.data, p) && info == FixedInfo(s.data, p) && big0 == FixedBig(s.data, p)
    requires name != null ==> name != extra && name != comment
    requires extra != null ==> extra != comment
    modifies s, name, extra, comment
    ensures err0 != UnzOk ==> err == err0
    ensures err0 == UnzOk ==> err == if Rooms(s.data, p, name, extra, comment) then UnzOk else UnzErrno
    ensures err == UnzOk ==> big == Extras(s.data, p).big
    ensures err == UnzOk && name != null ==>
              Filled(s.data, NameAt(s.data, p), info.nameSize, true, name[..], old(name[..]))
    ensures err == UnzOk && extra != null ==>
              Filled(s.data, ExtraAt(s.data, p), info.extraSize, false, extra[..], old(extra[..]))
    ensures err == UnzOk && comment != null ==>
              Filled(s.data, Extras(s.data, p).at, info.commentSize, true, comment[..], old(comment[..]))
  {
    hide Filled, Blocks, FixedInfo, FixedBig, Room;
    var lSeek;
    err, lSeek := NameStage(s, name, info.nameSize, err0);
    err, lSeek := ExtraStage(s, extra, info.extraSize, err, lSeek);
    lSeek, big := BlocksStage(s, info.extraSize, err, lSeek, big0);
    err := CommentStage(s, comment, info.commentSize, err, lSeek);
  }

  /** unz64local_GetCurrentFileInfoInternal for the header that a seek to `pos` leads to, with the
      seek accounting of the variable fields.  The buffers make one difference: a header with the
      right magic is refused exactly when the file does not hold all the bytes that they are to
      receive.  Otherwise the result is the parsed header, and each buffer has its field. */
  method GetInfo(s: Stream, pos: nat, name: array?<byte>, extra: array?<byte>, comment: array?<byte>)
    returns (h: Header)
    requires name != null ==> name != extra && name != comment
    requires extra != null ==> extra != comment
    modifies s, name, extra, comment
    ensures h.err == if ParseHeader(s.data, pos).err == UnzOk && !Rooms(s.data, Place(pos), name, extra, comment)
                     then UnzErrno else ParseHeader(s.data, pos).err
    ensures h.err == UnzOk ==> h == ParseHeader(s.data, pos)
    ensures h.err == UnzOk && name != null ==>
              Filled(s.data, NameAt(s.data, Place(pos)), h.info.nameSize, true, name[..], old(name[..]))
    ensures h.err == UnzOk && extra != null ==>
              Filled(s.data, ExtraAt(s.data, Place(pos)), h.info.extraSize, false, extra[..], old(extra[..]))
    ensures h.err == UnzOk && comment != null ==>
              Filled(s.data, Extras(s.data, Place(pos)).at, h.info.commentSize, true, comment[..], old(comment[..]))
  {
    hide Filled, Extras, FixedInfo, FixedBig, Rooms;
    var ok := s.Seek(pos);
    ghost var p := s.at;
    var err, info, big := ReadFixed(s);
    if !ok {
      err := UnzErrno;
    }
    err, big := GetVariable(s, err, p, info, big, name, extra, comment);
    h := Header(err, info, big);
  }
}
