/** Whole records as PKWARE APPNOTE.TXT lays them out, and what the reader of
    ThirdParty/Minizip/unzip.c takes from them, field by field. */
module ZipRecords {
  import opened ZipFormat
  import opened ZipSearch
  import opened ZipInfo
  import opened ZipReader

  // ---- central headers --------------------------------------------------

  /** Section 4.3.12. */
  function HeaderFields(info: Info, big: Big): seq<nat>
  {
    [0x4b50, 0x0201, info.version, info.needed, info.flag, info.method_, Lo(info.dosDate), Hi(info.dosDate),
     Lo(info.crc), Hi(info.crc), Lo(big.csize), Hi(big.csize), Lo(big.usize), Hi(big.usize),
     info.nameSize, info.extraSize, info.commentSize, big.disk, info.internalFa,
      Lo(info.externalFa), Hi(info.externalFa),
     Lo(big.offset), Hi(big.offset)]
  }

  predicate HeaderInRange(info: Info, big: Big)
  {
    && info.version < K64 && info.needed < K64 && info.flag < K64 && info.method_ < K64
    && info.dosDate < TWO32 && info.crc < TWO32 && big.csize < TWO32 && big.usize < TWO32
    && info.nameSize < K64 && info.extraSize < K64 && info.commentSize < K64 && big.disk < K64
    && info.internalFa < K64 && info.externalFa < TWO32 && big.offset < TWO32
  }

  /** A field of the row, as the reader gets it. */
  lemma ShortField(xs: seq<nat>, d: seq<byte>, p: nat, i: nat)
    requires LiesAt(Shorts(xs), d, p) && i < |xs| && xs[i] < K64
    ensures Short(d, p + 2 * i) == xs[i]
  {
    ShortAt(xs, d, p, i);
  }

  lemma LongField(xs: seq<nat>, d: seq<byte>, p: nat, i: nat, n: nat)
    requires LiesAt(Shorts(xs), d, p) && i + 1 < |xs| && xs[i] == Lo(n) && xs[i + 1] == Hi(n) && n < TWO32
    ensures Long(d, p + 2 * i) == n
  {
    TwoShorts(xs, d, p, i, n);
  }

  lemma FirstFields(info: Info, big: Big, d: seq<byte>, p: nat)
    requires HeaderInRange(info, big) && LiesAt(Shorts(HeaderFields(info, big)), d, p)
    ensures Long(d, p) == CENTRAL_SIG && Short(d, p + 4) == info.version && Short(d, p + 6) == info.needed
    ensures Short(d, p + 8) == info.flag && Short(d, p + 10) == info.method_ && Long(d, p + 12) == info.dosDate
  {
    var xs := HeaderFields(info, big);
    assert Lo(CENTRAL_SIG) == 0x4b50 && Hi(CENTRAL_SIG) == 0x0201;
    hide Shorts, LiesAt, Short, Long, Lo, Hi;
    LongField(xs, d, p, 0, CENTRAL_SIG);
    ShortField(xs, d, p, 2);
    ShortField(xs, d, p, 3);
    ShortField(xs, d, p, 4);
    ShortField(xs, d, p, 5);
    LongField(xs, d, p, 6, info.dosDate);
  }

  lemma SizeFields(info: Info, big: Big, d: seq<byte>, p: nat)
    requires HeaderInRange(info, big) && LiesAt(Shorts(HeaderFields(info, big)), d, p)
    ensures Long(d, p + 16) == info.crc && Long(d, p + 20) == big.csize && Long(d, p + 24) == big.usize
    ensures Short(d, p + 28) == info.nameSize && Short(d, p + 30) == info.extraSize
    ensures Short(d, p + 32) == info.commentSize
  {
    var xs := HeaderFields(info, big);
    hide Shorts, LiesAt, Short, Long, Lo, Hi;
    LongField(xs, d, p, 8, info.crc);
    LongField(xs, d, p, 10, big.csize);
    LongField(xs, d, p, 12, big.usize);
    ShortField(xs, d, p, 14);
    ShortField(xs, d, p, 15);
    ShortField(xs, d, p, 16);
  }

  lemma LastFields(info: Info, big: Big, d: seq<byte>, p: nat)
    requires HeaderInRange(info, big) && LiesAt(Shorts(HeaderFields(info, big)), d, p)
    ensures Short(d, p + 34) == big.disk && Short(d, p + 36) == info.internalFa && Long(d, p + 38) == info.externalFa
    ensures Long(d, p + 42) == big.offset && p + CENTRAL_SIZE <= |d|
  {
    var xs := HeaderFields(info, big);
    HeaderLies(xs, d, p);
    hide Shorts, LiesAt, Short, Long, Lo, Hi;
    ShortField(xs, d, p, 17);
    ShortField(xs, d, p, 18);
    LongField(xs, d, p, 19, info.externalFa);
    LongField(xs, d, p, 21, big.offset);
  }

  /** Every field of a header is read from its place. */
  lemma HeaderReadsBack(info: Info, big: Big, d: seq<byte>, p: nat)
    requires HeaderInRange(info, big) && LiesAt(Shorts(HeaderFields(info, big)), d, p)
    ensures p + CENTRAL_SIZE <= |d| && FixedErr(d, p) == UnzOk && FixedInfo(d, p) == info && FixedBig(d, p) == big
  {
    hide Shorts, LiesAt, Short, Long, HeaderFields, HeaderInRange;
    FirstFields(info, big, d, p);
    SizeFields(info, big, d, p);
    LastFields(info, big, d, p);
  }

  lemma HeaderLies(xs: seq<nat>, d: seq<byte>, p: nat)
    requires LiesAt(Shorts(xs), d, p)
    ensures p + 2 * |xs| <= |d|
  {
  }

  /** The next header is looked for behind name, extra field and comment of the current one. */
  lemma NextHeader(d: File, e: End, c: Cursor, info: Info, big: Big)
    requires Acceptable(e) && c.ok && (e.entries == 0xffff || c.num + 1 != e.entries)
    requires HeaderInRange(info, big) && info.extraSize == 0
    requires LiesAt(Shorts(HeaderFields(info, big)), d,
                    c.pos + 46 + c.info.nameSize + c.info.extraSize + c.info.commentSize + Before(e))
    ensures Next(d, e, c) ==
            (UnzOk, Cursor(c.num + 1, c.pos + 46 + c.info.nameSize + c.info.extraSize + c.info.commentSize,
                           true, info, big))
  {
    hide *;
    var pos := c.pos + 46 + c.info.nameSize + c.info.extraSize + c.info.commentSize;
    HeaderFound(info, big, d, pos + Before(e));
    NextIsLoad(d, e, c, pos);
    LoadIs(d, Before(e), c.(num := c.num + 1, pos := pos), info, big);
  }

  lemma NextIsLoad(d: seq<byte>, e: End, c: Cursor, pos: nat)
    requires Acceptable(e) && c.ok && (e.entries == 0xffff || c.num + 1 != e.entries)
    requires pos == c.pos + 46 + c.info.nameSize + c.info.extraSize + c.info.commentSize
    ensures Next(d, e, c) == Load(d, Before(e), c.(num := c.num + 1, pos := pos))
  {
    hide ParseHeader, Before, Acceptable;
  }

  lemma LoadIs(d: seq<byte>, before: nat, c: Cursor, info: Info, big: Big)
    requires ParseHeader(d, c.pos + before) == Header(UnzOk, info, big)
    ensures Load(d, before, c) == (UnzOk, Cursor(c.num, c.pos, true, info, big))
  {
    hide ParseHeader;
  }

  lemma HeaderFound(info: Info, big: Big, d: File, p: nat)
    requires HeaderInRange(info, big) && info.extraSize == 0 && LiesAt(Shorts(HeaderFields(info, big)), d, p)
    ensures ParseHeader(d, p) == Header(UnzOk, info, big)
  {
    hide *;
    HeaderReadsBack(info, big, d, p);
    PlaceInside(d, p);
    NoExtras(d, p);
  }

  lemma NoExtras(d: seq<byte>, p: nat)
    requires FixedErr(d, p) == UnzOk && FixedInfo(d, p).extraSize == 0
    ensures HeaderAt(d, p) == Header(UnzOk, FixedInfo(d, p), FixedBig(d, p))
  {
    hide FixedInfo, FixedBig, FixedErr;
  }

  // ---- local headers ----------------------------------------------------

  lemma LocalFixed(e: Entry, d: seq<byte>, p: nat)
    requires Fits(e) && LiesAt(Shorts(LocalFields(e)), d, p)
    ensures p + LOCAL_SIZE <= |d| && Long(d, p) == 0x04034b50 && Short(d, p + 6) == e.flag
    ensures Short(d, p + 8) == e.method_
    ensures Long(d, p + 14) == e.crc && Long(d, p + 18) == e.csize && Long(d, p + 22) == e.usize
    ensures Short(d, p + 26) == |e.name| && Short(d, p + 28) == |e.extra|
  {
    LocalRow(e, d, p);
    hide Shorts, LiesAt, U16, U32, LocalFields;
  }

  /** A local header agrees with what the central one says exactly when methods and name sizes are
      equal, the method is stored, deflated or bzip2, and the CRC and each size agree, unless bit 3
      of its flags says that they come behind the data or the size is all ones. */
  lemma CoherentExactly(e: Entry, d: seq<byte>, p: nat, info: Info, big: Big)
    requires Fits(e) && LiesAt(Shorts(LocalFields(e)), d, p)
    ensures Coherent(d, p, info, big) <==>
              && e.method_ == info.method_ && (e.method_ == 0 || e.method_ == 8 || e.method_ == 12)
              && |e.name| == info.nameSize
              && (e.flag / 8 % 2 == 1
                  || (e.crc == info.crc && (e.csize == 0xFFFF_FFFF || e.csize == big.csize)
                      && (e.usize == 0xFFFF_FFFF || e.usize == big.usize)))
  {
    LocalFixed(e, d, p);
    hide Shorts, LiesAt, Short, Long, LocalFields;
  }

  // ---- end records ------------------------------------------------------

  /** Section 4.3.16. */
  datatype EndInfo = EndInfo(disk: nat, diskCD: nat, entries: nat, entriesCD: nat, size: nat, offset: nat, comment: nat)

  function EndRow(e: EndInfo): seq<nat>
  {
    [0x4b50, 0x0605, e.disk, e.diskCD, e.entries, e.entriesCD, Lo(e.size), Hi(e.size), Lo(e.offset),
     Hi(e.offset), e.comment]
  }

  /** An end record is taken exactly when it is for one disk, and then for what it says. */
  lemma EndReads(e: EndInfo, d: seq<byte>, p: nat)
    requires e.disk < K64 && e.diskCD < K64 && e.entries < K64 && e.entriesCD < K64 && e.size < TWO32
    requires e.offset < TWO32
    requires LiesAt(Shorts(EndRow(e)), d, p)
    ensures p + END_SIZE <= |d|
    ensures ReadEnd(d, p) ==
            if e.disk == 0 && e.diskCD == 0 && e.entries == e.entriesCD then End(e.entries, e.size, e.offset, p)
            else NoEnd
  {
    var xs := EndRow(e);
    HeaderLies(xs, d, p);
    hide Shorts, LiesAt, Short, Long, Lo, Hi;
    ShortField(xs, d, p, 2);
    ShortField(xs, d, p, 3);
    ShortField(xs, d, p, 4);
    ShortField(xs, d, p, 5);
    LongField(xs, d, p, 6, e.size);
    LongField(xs, d, p, 8, e.offset);
  }

  // ---- Zip64 ------------------------------------------------------------

  /** The four 16-bit parts of a number of 64 bits. */
  function Part(n: nat, i: nat): nat
    requires i < 4
  {
    if i == 0 then n % K64 else if i == 1 then n / K64 % K64 else if i == 2 then n / TWO32 % K64 else n / TWO32 / K64
  }

  lemma FourParts(n: nat)
    requires n < TWO64
    ensures Part(n, 0) == Lo(n % TWO32) && Part(n, 1) == Hi(n % TWO32)
    ensures Part(n, 2) == Lo(n / TWO32) && Part(n, 3) == Hi(n / TWO32)
  {
    var hi, lo := n / TWO32, n % TWO32;
    assert n == lo + K64 * (K64 * hi);
    assert n % K64 == lo % K64 && n / K64 == lo / K64 + K64 * hi;
  }

  lemma TwoLongs(d: seq<byte>, q: nat, lo: nat, hi: nat)
    requires q + 8 <= |d| && U32(d, q) == lo && U32(d, q + 4) == hi
    ensures Long64(d, q) == lo + TWO32 * hi
  {
  }

  lemma Long64Field(xs: seq<nat>, d: seq<byte>, p: nat, i: nat, n: nat)
    requires LiesAt(Shorts(xs), d, p) && i + 3 < |xs| && n < TWO64
    requires xs[i] == Part(n, 0) && xs[i + 1] == Part(n, 1) && xs[i + 2] == Part(n, 2) && xs[i + 3] == Part(n, 3)
    ensures Long64(d, p + 2 * i) == n
  {
    FourParts(n);
    HeaderLies(xs, d, p);
    hide Shorts, LiesAt, U32, Part, Lo, Hi;
    TwoShorts(xs, d, p, i, n % TWO32);
    TwoShorts(xs, d, p, i + 2, n / TWO32);
    TwoLongs(d, p + 2 * i, n % TWO32, n / TWO32);
  }

  /** Sections 4.3.14 and 4.3.15. */
  datatype End64Info = End64Info(recordSize: nat, version: nat, needed: nat, disk: nat, diskCD: nat,
                                 entries: nat, entriesCD: nat, size: nat, offset: nat)

  function End64Row(e: End64Info): seq<nat>
  {
    [0x4b50, 0x0606, Part(e.recordSize, 0), Part(e.recordSize, 1), Part(e.recordSize, 2), Part(e.recordSize, 3),
     e.version, e.needed, Lo(e.disk), Hi(e.disk), Lo(e.diskCD), Hi(e.diskCD),
     Part(e.entries, 0), Part(e.entries, 1), Part(e.entries, 2), Part(e.entries, 3),
     Part(e.entriesCD, 0), Part(e.entriesCD, 1), Part(e.entriesCD, 2), Part(e.entriesCD, 3),
     Part(e.size, 0), Part(e.size, 1), Part(e.size, 2), Part(e.size, 3),
     Part(e.offset, 0), Part(e.offset, 1), Part(e.offset, 2), Part(e.offset, 3)]
  }

  predicate End64InRange(e: End64Info)
  {
    && e.disk < TWO32 && e.diskCD < TWO32 && e.entries < TWO64 && e.entriesCD < TWO64
    && e.size < TWO64 && e.offset < TWO64
  }

  function LocatorRow(disk: nat, rel: nat, disks: nat): seq<nat>
  {
    [0x4b50, 0x0706, Lo(disk), Hi(disk), Part(rel, 0), Part(rel, 1), Part(rel, 2), Part(rel, 3), Lo(disks), Hi(disks)]
  }

  lemma End64Disks(e: End64Info, d: seq<byte>, p: nat)
    requires End64InRange(e) && LiesAt(Shorts(End64Row(e)), d, p)
    ensures Long(d, p) == 0x06064b50 && Long(d, p + 16) == e.disk && Long(d, p + 20) == e.diskCD
  {
    var xs := End64Row(e);
    assert Lo(0x06064b50) == 0x4b50 && Hi(0x06064b50) == 0x0606;
    hide Shorts, LiesAt, Short, Long, Long64, Lo, Hi, Part;
    LongField(xs, d, p, 0, 0x06064b50);
    LongField(xs, d, p, 8, e.disk);
    LongField(xs, d, p, 10, e.diskCD);
  }

  lemma End64Numbers(e: End64Info, d: seq<byte>, p: nat)
    requires End64InRange(e) && LiesAt(Shorts(End64Row(e)), d, p)
    ensures Long64(d, p + 24) == e.entries && Long64(d, p + 32) == e.entriesCD
    ensures Long64(d, p + 40) == e.size && Long64(d, p + 48) == e.offset
  {
    var xs := End64Row(e);
    hide Shorts, LiesAt, Short, Long, Long64, Lo, Hi, Part;
    Long64Field(xs, d, p, 12, e.entries);
    Long64Field(xs, d, p, 16, e.entriesCD);
    Long64Field(xs, d, p, 20, e.size);
    Long64Field(xs, d, p, 24, e.offset);
  }

  lemma End64Reads(e: End64Info, d: seq<byte>, p: nat)
    requires End64InRange(e) && LiesAt(Shorts(End64Row(e)), d, p)
    ensures Long(d, p) == 0x06064b50
    ensures ReadEnd64(d, p) ==
            if e.disk == 0 && e.diskCD == 0 && e.entries == e.entriesCD then End(e.entries, e.size, e.offset, p)
            else NoEnd
  {
    hide Shorts, LiesAt, Long, Long64, End64Row;
    End64Disks(e, d, p);
    End64Numbers(e, d, p);
  }

  /** A locator leads to the record it names exactly when it is for one disk and the signature is there. */
  lemma LocatorReads(disk: nat, rel: nat, disks: nat, d: seq<byte>, q: nat)
    requires disk < TWO32 && rel < TWO64 && disks < TWO32 && LastMark(d, LOCATOR_MARK) == q
    requires LiesAt(Shorts(LocatorRow(disk, rel, disks)), d, q)
    ensures Search64(d) == if disk == 0 && disks == 1 && Long(d, rel) == 0x06064b50 then rel else INVALID
  {
    var xs := LocatorRow(disk, rel, disks);
    hide Shorts, LiesAt, Short, Long, Long64, Lo, Hi, Part, LastMark;
    LongField(xs, d, q, 2, disk);
    Long64Field(xs, d, q, 4, rel);
    LongField(xs, d, q, 8, disks);
  }

  /** A file with a Zip64 end record and its locator opens by that record, whatever else is in it. */
  lemma Zip64Opens(e: End64Info, d: seq<byte>, p: nat, q: nat)
    requires End64InRange(e) && LiesAt(Shorts(End64Row(e)), d, p) && p < TWO64
    requires LastMark(d, LOCATOR_MARK) == q && LiesAt(Shorts(LocatorRow(0, p, 1)), d, q)
    ensures FindEnd(d) ==
            if e.disk == 0 && e.diskCD == 0 && e.entries == e.entriesCD && p >= (e.offset + e.size) % TWO64
            then End(e.entries, e.size, e.offset, p) else NoEnd
  {
    hide *;
    End64Reads(e, d, p);
    LocatorReads(0, p, 1, d, q);
    FindBy64(d, p);
  }

  lemma FindBy64(d: seq<byte>, p: nat)
    requires Search64(d) == p
    ensures FindEnd(d) ==
            if ReadEnd64(d, p).End? && p >= (ReadEnd64(d, p).offset + ReadEnd64(d, p).size) % TWO64 then ReadEnd64(d, p)
            else NoEnd
  {
    hide Search64;
  }
}
