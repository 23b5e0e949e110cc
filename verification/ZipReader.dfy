/** Opening an archive and moving its cursor: unzOpenInternal, unzGoToFirstFile, unzGoToNextFile,
    unzLocateFile and unz64local_CheckCurrentFileCoherencyHeader of ThirdParty/Minizip/unzip.c. */
module ZipReader {
  import opened ZipFormat
  import opened ZipSearch
  import opened ZipInfo
  import opened ZipNames

  const END64_SIG: nat := 0x06064b50
  const METHOD_BZIP2: nat := 12
  const METHOD_DEFLATE: nat := 8

  /** What unzOpenInternal takes from the end record. */
  datatype End = NoEnd | End(entries: nat, size: nat, offset: nat, at: nat)

  /** unz64local_SearchCentralDir64: the Zip64 end record that a locator leads to. */
  function Search64(d: seq<byte>): int
  {
    var p := LastMark(d, LOCATOR_MARK);
    if p == INVALID || Long(d, p + 4) != 0 || Long(d, p + 16) != 1 || Long(d, Long64(d, p + 8)) != END64_SIG
      then INVALID
    else Long64(d, p + 8)
  }

  /** Zip64 end record (section 4.3.14) at `p`. */
  function ReadEnd64(d: seq<byte>, p: nat): End
  {
    if Long64(d, p + 24) != Long64(d, p + 32) || Long(d, p + 16) != 0 || Long(d, p + 20) != 0 then NoEnd
    else End(Long64(d, p + 24), Long64(d, p + 40), Long64(d, p + 48), p)
  }

  /** End record (section 4.3.16) at `p`.  What the file does not hold of it reads as zeros. */
  function ReadEnd(d: seq<byte>, p: int): End
  {
    if p < 0 then NoEnd
    else if Short(d, p + 8) != Short(d, p + 10) || Short(d, p + 4) != 0 || Short(d, p + 6) != 0 then NoEnd
    else End(Short(d, p + 8), Long(d, p + 12), Long(d, p + 16), p)
  }

  /** Where the central directory ends, in 64-bit arithmetic. */
  function DirectoryEnd(e: End): nat
    requires e.End?
  {
    (e.offset + e.size) % TWO64
  }

  /** The directory lies before the end record. */
  predicate Acceptable(e: End)
  {
    e.End? && e.at >= DirectoryEnd(e)
  }

  /** The end record that opening uses; the directory has to lie before it. */
  function FindEnd(d: seq<byte>): End
  {
    var e := if Search64(d) != INVALID then ReadEnd64(d, Search64(d)) else ReadEnd(d, LastMark(d, END_MARK));
    if Acceptable(e) then e else NoEnd
  }

  /** Bytes before the archive proper. */
  function Before(e: End): nat
    requires Acceptable(e)
  {
    e.at - DirectoryEnd(e)
  }

  /** Disk of the Zip64 end record, its position, and the number of disks. */
  method ReadLocator(s: Stream, p: nat) returns (disk: nat, rel: nat, disks: nat)
    requires p <= |s.data|
    modifies s
    ensures disk == Long(s.data, p + 4) && rel == Long64(s.data, p + 8) && disks == Long(s.data, p + 16)
  {
    var ok := s.Seek(p);
    var magic := s.GetLong();
    disk := s.GetLong();
    rel := s.GetLong64();
    disks := s.GetLong();
  }

  /** The checks stop at the first that fails; the reads behind it do no harm. */
  method SearchCentralDir64(s: Stream) returns (r: int)
    modifies s
    ensures r == Search64(s.data) && (r != INVALID ==> 0 <= r <= |s.data|)
  {
    hide U32;
    var found := Search(s.data, LOCATOR_MARK);
    if found == INVALID {
      return INVALID;
    }
    var disk, rel, disks := ReadLocator(s, found);
    if disk != 0 || disks != 1 {
      return INVALID;
    }
    var ok := s.Seek(rel);
    if !ok {
      return INVALID;
    }
    var magic := s.GetLong();
    r := if magic != END64_SIG then INVALID else rel;
  }

  /** Signature, record size, versions and disk numbers of the Zip64 end record. */
  method OpenDisks64(s: Stream, p: nat) returns (disk: nat, diskCD: nat)
    requires p <= |s.data|
    modifies s
    ensures s.at == After(s.data, p, 24) && disk == Long(s.data, p + 16) && diskCD == Long(s.data, p + 20)
  {
    var ok := s.Seek(p);
    var magic := s.GetLong();
    var recordSize := s.GetLong64();
    var version := s.GetShort();
    var needed := s.GetShort();
    disk := s.GetLong();
    diskCD := s.GetLong();
  }

  /** The reads of the Zip64 branch of unzOpenInternal. */
  method OpenEnd64(s: Stream, p: nat) returns (e: End)
    requires p <= |s.data|
    modifies s
    ensures e == ReadEnd64(s.data, p)
  {
    var disk, diskCD := OpenDisks64(s, p);
    var entries := s.GetLong64();
    var entriesCD := s.GetLong64();
    var good := entriesCD == entries && diskCD == 0 && disk == 0;
    var size := s.GetLong64();
    var offset := s.GetLong64();
    e := if good then End(entries, size, offset, p) else NoEnd;
  }

  /** Signature, disk numbers and numbers of entries of the end record. */
  method OpenCounts(s: Stream, p: int) returns (ok: bool, disk: nat, diskCD: nat, entries: nat, entriesCD: nat)
    requires INVALID <= p <= |s.data|
    modifies s
    ensures ok == (p >= 0)
    ensures p >= 0 ==>
              && s.at == After(s.data, p, 12) && disk == Short(s.data, p + 4) && diskCD == Short(s.data, p + 6)
              && entries == Short(s.data, p + 8) && entriesCD == Short(s.data, p + 10)
  {
    ok := s.Seek(p);
    var magic := s.GetLong();
    disk := s.GetShort();
    diskCD := s.GetShort();
    entries := s.GetShort();
    entriesCD := s.GetShort();
  }

  /** The reads of the other branch; a seek to an invalid position fails. */
  method OpenEnd(s: Stream, p: int) returns (e: End)
    requires INVALID <= p <= |s.data|
    modifies s
    ensures e == ReadEnd(s.data, p)
  {
    var good, disk, diskCD, entries, entriesCD := OpenCounts(s, p);
    if entriesCD != entries || diskCD != 0 || disk != 0 {
      good := false;
    }
    var size := s.GetLong();
    var offset := s.GetLong();
    var commentSize := s.GetShort();
    e := if good then End(entries, size, offset, p) else NoEnd;
  }

  // ---- the cursor -------------------------------------------------------

  /** num_file, pos_in_central_dir, current_file_ok, cur_file_info and its internal part. */
  datatype Cursor = Cursor(num: nat, pos: nat, ok: bool, info: Info, big: Big)

  /** Load the header at the cursor; on an error the old file information stays. */
  function Load(d: seq<byte>, before: nat, c: Cursor): (Err, Cursor)
  {
    var h := ParseHeader(d, c.pos + before);
    if h.err == UnzOk then (UnzOk, c.(ok := true, info := h.info, big := h.big)) else (h.err, c.(ok := false))
  }

  function First(d: seq<byte>, e: End, c: Cursor): (Err, Cursor)
    requires Acceptable(e)
  {
    Load(d, Before(e), c.(num := 0, pos := e.offset))
  }

  function HeaderSize(info: Info): nat
  {
    CENTRAL_SIZE + info.nameSize + info.extraSize + info.commentSize
  }

  function Next(d: seq<byte>, e: End, c: Cursor): (Err, Cursor)
    requires Acceptable(e)
  {
    if !c.ok || (e.entries != 0xffff && c.num + 1 == e.entries) then (EndOfList, c)
    else Load(d, Before(e), c.(num := c.num + 1, pos := c.pos + HeaderSize(c.info)))
  }

  /** Where the header of entry `i` starts. */
  function PosOf(d: seq<byte>, e: End, i: nat): nat
    requires Acceptable(e)
  {
    if i == 0 then e.offset else
      PosOf(d, e, i - 1) + HeaderSize(ParseHeader(d, PosOf(d, e, i - 1) + Before(e)).info)
  }

  function CursorAt(d: seq<byte>, e: End, i: nat): Cursor
    requires Acceptable(e)
  {
    var h := ParseHeader(d, PosOf(d, e, i) + Before(e));
    Cursor(i, PosOf(d, e, i), true, h.info, h.big)
  }

  /** Where the reader looks for the header of entry `i`. */
  function HeaderPlace(d: seq<byte>, e: End, i: nat): nat
    requires Acceptable(e)
  {
    Place(PosOf(d, e, i) + Before(e))
  }

  /** The name of the header lies in the file. */
  predicate NameInside(d: seq<byte>, p: nat)
  {
    NameAt(d, p) + FixedInfo(d, p).nameSize <= |d|
  }

  ghost predicate Readable(d: seq<byte>, e: End, i: nat)
    requires Acceptable(e)
  {
    ParseHeader(d, PosOf(d, e, i) + Before(e)).err == UnzOk && NameInside(d, HeaderPlace(d, e, i))
  }

  /** Every entry that the end record announces has a readable header. */
  ghost predicate WellFormed(d: seq<byte>, e: End)
  {
    Acceptable(e) && 1 <= e.entries && e.entries != 0xffff &&
    forall i: nat :: i < e.entries ==> Readable(d, e, i)
  }

  /** Walking a well-formed directory: the cursor goes through its entries in order and then stops. */
  lemma NextOnDirectory(d: seq<byte>, e: End, i: nat)
    requires WellFormed(d, e) && i < e.entries
    ensures Next(d, e, CursorAt(d, e, i)) == if i + 1 < e.entries then (UnzOk, CursorAt(d, e, i + 1))
            else (EndOfList, CursorAt(d, e, i))
  {
    if i + 1 < e.entries {
      assert Readable(d, e, i + 1);
    }
  }

  function NameOf(d: seq<byte>, e: End, i: nat): seq<byte>
    requires WellFormed(d, e) && i < e.entries
  {
    assert Readable(d, e, i);
    var p := HeaderPlace(d, e, i);
    d[NameAt(d, p)..NameAt(d, p) + FixedInfo(d, p).nameSize]
  }

  ghost predicate NamesWithoutNul(d: seq<byte>, e: End)
  {
    WellFormed(d, e) && forall i: nat :: i < e.entries ==> 0 !in NameOf(d, e, i)
  }

  const MAX_NAME: nat := 256     // UNZ_MAXFILENAMEINZIP

  function Folds(sensitivity: nat): bool
  {
    sensitivity != 1 && sensitivity != 0
  }

  ghost predicate SameName(d: seq<byte>, e: End, i: nat, name: seq<byte>, sensitivity: nat)
    requires WellFormed(d, e) && i < e.entries
  {
    Folded(NameOf(d, e, i), Folds(sensitivity)) == Folded(name, Folds(sensitivity))
  }

  /** Byte by byte, up to capitals when the sensitivity is neither 0 nor 1. */
  lemma SameNameIs(d: seq<byte>, e: End, i: nat, name: seq<byte>, sensitivity: nat)
    requires WellFormed(d, e) && i < e.entries
    ensures var entry := NameOf(d, e, i);
      SameName(d, e, i, name, sensitivity) <==>
        |entry| == |name| && forall k :: 0 <= k < |name| ==> SameLetter(entry[k], name[k], sensitivity)
  {
    FoldedSame(NameOf(d, e, i), name, sensitivity);
  }

  /** None of the first `n` entries has the name. */
  ghost predicate NoneNamed(d: seq<byte>, e: End, n: nat, name: seq<byte>, sensitivity: nat)
    requires WellFormed(d, e) && n <= e.entries
  {
    forall i: nat :: i < n ==> !SameName(d, e, i, name, sensitivity)
  }

  lemma NoneNamedStep(d: seq<byte>, e: End, n: nat, name: seq<byte>, sensitivity: nat)
    requires WellFormed(d, e) && n < e.entries
    requires NoneNamed(d, e, n, name, sensitivity) && !SameName(d, e, n, name, sensitivity)
    ensures NoneNamed(d, e, n + 1, name, sensitivity)
  {
  }

  lemma CStrOfPrefix(s: seq<byte>, n: nat)
    requires n <= |s| && 0 !in s[..n] && (n < |s| ==> s[n] == 0)
    ensures CStr(s) == s[..n]
  {
    if n > 0 {
      assert s[0] in s[..n] && s[1..][..n - 1] == s[..n][1..];
      CStrOfPrefix(s[1..], n - 1);
    }
  }

  lemma SlicePrefix(d: seq<byte>, a: nat, m: nat, n: nat)
    requires n <= m && a + m <= |d|
    ensures d[a..a + m][..n] == d[a..a + n]
  {
    var x, y := d[a..a + m][..n], d[a..a + n];
    forall k | 0 <= k < n
      ensures x[k] == y[k]
    {
      assert x[k] == d[a..a + m][k];
    }
  }

  /** The 256-byte buffer into which an entry name was read compares equal to a shorter name
      exactly when the entry has that name. */
  lemma BufferHoldsName(d: seq<byte>, e: End, i: nat, buf: seq<byte>, was: seq<byte>, name: seq<byte>, sensitivity: nat)
    requires NamesWithoutNul(d, e) && i < e.entries && |name| < MAX_NAME == |buf| && 0 !in name
    requires NameInside(d, HeaderPlace(d, e, i))
    requires var p := HeaderPlace(d, e, i); Filled(d, NameAt(d, p), FixedInfo(d, p).nameSize, true, buf, was)
    ensures Compare(buf, name, sensitivity) == 0 <==> SameName(d, e, i, name, sensitivity)
  {
    var p := HeaderPlace(d, e, i);
    var entry := NameOf(d, e, i);
    var n := Min(|entry|, |buf|);
    SlicePrefix(d, NameAt(d, p), |entry|, n);
    assert buf[..n] == entry[..n];
    CStrOfPrefix(buf, n);
    CompareIsLex(buf, name, 0, Folds(sensitivity));
    assert buf[0..] == buf && name[0..] == name;
    assert |entry| < |buf| ==> entry[..n] == entry;
  }

  // ---- local headers ----------------------------------------------------

  predicate Supported(m: nat)
  {
    m == 0 || m == METHOD_BZIP2 || m == METHOD_DEFLATE
  }

  predicate HasDescriptor(flags: nat)
  {
    flags / 8 % 2 == 1
  }

  /** A local size field of all ones leaves the size to the central header. */
  predicate SizeAgrees(local: nat, central: nat)
  {
    local == MAXU32 || local == central
  }

  function LocalNameSize(d: seq<byte>, p: nat): nat { Short(d, p + 26) }

  function LocalExtraSize(d: seq<byte>, p: nat): nat { Short(d, p + 28) }

  /** CRC and sizes, from the date field at `p` on. */
  predicate SizesAgree(d: seq<byte>, p: nat, flags: nat, info: Info, big: Big)
  {
    HasDescriptor(flags) ||
    (Long(d, p + 4) == info.crc && SizeAgrees(Long(d, p + 8), big.csize) && SizeAgrees(Long(d, p + 12), big.usize))
  }

  /** The local header at `p` agrees with the central header it was found by.  Only its magic has
      to be in the file; behind the end of the file there are zeros to agree with. */
  predicate Coherent(d: seq<byte>, p: nat, info: Info, big: Big)
  {
    && Long(d, p) == LOCAL_SIG
    && Short(d, p + 8) == info.method_ && Supported(info.method_)
    && SizesAgree(d, p + 10, Short(d, p + 6), info, big)
    && LocalNameSize(d, p) == info.nameSize
  }

  /** unzGoToFirstFile() and `n` times unzGoToNextFile(), up to the first error. */
  function Walked(d: seq<byte>, e: End, c: Cursor, n: nat): (Err, Cursor)
    requires Acceptable(e)
  {
    if n == 0 then First(d, e, c) else
      var r := Walked(d, e, c, n - 1);
      if r.0 == UnzOk then Next(d, e, r.1) else r
  }

  /** Whatever the directory holds: a walk of `n` successful steps has seen n + 1 entries, and its
      next step says "end of list" exactly when that is the announced number and the number is below
      0xffff.  So a walk cannot pass the announced number, and when 0xffff or no entries are
      announced only a missing magic ends it. */
  lemma {:induction false} WalkCounts(d: File, e: End, c: Cursor, n: nat)
    requires Acceptable(e) && Walked(d, e, c, n).0 == UnzOk
    ensures Walked(d, e, c, n).1.num == n && Walked(d, e, c, n).1.ok
    ensures Walked(d, e, c, n + 1).0 == EndOfList <==> e.entries != 0xffff && e.entries == n + 1
    ensures Walked(d, e, c, n + 1).0 in {UnzOk, EndOfList, BadZipFile}
    ensures e.entries != 0xffff && e.entries != 0 ==> n < e.entries
    decreases n
  {
    hide ParseHeader;
    if n > 0 {
      WalkCounts(d, e, c, n - 1);
    }
    WalkedInside(d, e, c, n);
    NextInside(d, Walked(d, e, c, n).1, Before(e));
  }

  /** A cursor on a header that was read: the header starts inside the file. */
  predicate OnHeader(d: seq<byte>, before: nat, c: Cursor)
  {
    && Place(c.pos + before) + 4 <= |d|
    && c.info == FixedInfo(d, Place(c.pos + before))
  }

  lemma ParsedIsFixed(d: seq<byte>, pos: nat)
    requires ParseHeader(d, pos).err == UnzOk
    ensures Place(pos) + 4 <= |d| && ParseHeader(d, pos).info == FixedInfo(d, Place(pos))
  {
  }

  lemma LoadedOnHeader(d: seq<byte>, before: nat, c: Cursor)
    requires Load(d, before, c).0 == UnzOk
    ensures OnHeader(d, before, Load(d, before, c).1)
  {
  }

  lemma WalkedInside(d: File, e: End, c: Cursor, n: nat)
    requires Acceptable(e) && Walked(d, e, c, n).0 == UnzOk
    ensures OnHeader(d, Before(e), Walked(d, e, c, n).1)
  {
    if n == 0 {
      LoadedOnHeader(d, Before(e), c.(num := 0, pos := e.offset));
    } else {
      var w := Walked(d, e, c, n - 1).1;
      LoadedOnHeader(d, Before(e), w.(num := w.num + 1, pos := w.pos + HeaderSize(w.info)));
    }
  }

  /** The place of the next header is behind this one, and a seek to it succeeds. */
  lemma NextInside(d: File, c: Cursor, before: nat)
    requires OnHeader(d, before, c)
    ensures Place(c.pos + HeaderSize(c.info) + before) == Place(c.pos + before) + HeaderSize(c.info) < TWO63
    ensures HeaderSize(c.info) > 0
    ensures ParseHeader(d, c.pos + HeaderSize(c.info) + before).err in {UnzOk, BadZipFile}
  {
    PlaceMore(c.pos + before, HeaderSize(c.info));
  }

  lemma PlaceMore(x: nat, h: nat)
    requires Place(x) + h < TWO64
    ensures Place(x + h) == Place(x) + h
  {
    var q := x / TWO64;
    assert x + h == Place(x) + h + TWO64 * q;
    assert (Place(x) + h + TWO64 * q) % TWO64 == (Place(x) + h) % TWO64;
  }

  /** An open archive (unz64_s). */
  class UnzFile {
    const s: Stream
    const end: End
    var cur: Cursor

    constructor (s: Stream, end: End)
      ensures this.s == s && this.end == end
    {
      this.s, this.end := s, end;
      cur := Cursor(0, 0, false, NO_INFO, NO_BIG);
    }

    ghost predicate Open()
      reads this
    {
      Acceptable(end)
    }

    method LoadCurrent() returns (err: Err)
      requires Open()
      modifies this`cur, s
      ensures (err, cur) == Load(s.data, Before(end), old(cur))
    {
      var h := GetInfo(s, cur.pos + Before(end), null, null, null);
      err := h.err;
      if err == UnzOk {
        cur := cur.(info := h.info, big := h.big);
      }
      cur := cur.(ok := err == UnzOk);
    }

    method GoToFirstFile() returns (err: Err)
      requires Open()
      modifies this`cur, s
      ensures (err, cur) == First(s.data, end, old(cur))
    {
      cur := cur.(pos := end.offset, num := 0);
      err := LoadCurrent();
    }

    method GoToNextFile() returns (err: Err)
      requires Open()
      modifies this`cur, s
      ensures (err, cur) == Next(s.data, end, old(cur))
    {
      if !cur.ok {
        return EndOfList;
      }
      if end.entries != 0xffff && cur.num + 1 == end.entries {
        return EndOfList;
      }
      cur := cur.(pos := cur.pos + CENTRAL_SIZE + cur.info.nameSize + cur.info.extraSize + cur.info.commentSize,
        num := cur.num + 1);
      err := LoadCurrent();
    }

    lemma NameHasRoom(d: seq<byte>, p: nat, name: array<byte>)
      requires NameInside(d, p)
      ensures Rooms(d, p, name, null, null)
    {
    }

    /** Read the name of the current entry into a 256-byte buffer and compare. */
    method CompareCurrent(szFileName: seq<byte>, sensitivity: nat, ghost i: nat) returns (err: Err, same: bool)
      requires Open() && 0 !in szFileName && |szFileName| < MAX_NAME
      modifies s
      ensures NamesWithoutNul(s.data, end) && i < end.entries && cur.pos == PosOf(s.data, end, i) ==>
                err == UnzOk && same == SameName(s.data, end, i, szFileName, sensitivity)
    {
      hide SameName, NameOf, ParseHeader, Filled, PosOf, Extras, FixedInfo;
      var name := new byte[MAX_NAME];
      ghost var was := name[..];
      var h := GetInfo(s, cur.pos + Before(end), name, null, null);
      err := h.err;
      same := Compare(name[..], szFileName, sensitivity) == 0;
      if NamesWithoutNul(s.data, end) && i < end.entries && cur.pos == PosOf(s.data, end, i) {
        assert Readable(s.data, end, i);
        ParsedIsFixed(s.data, cur.pos + Before(end));
        NameHasRoom(s.data, HeaderPlace(s.data, end, i), name);
        BufferHoldsName(s.data, end, i, name[..], was, szFileName, sensitivity);
      }
    }

    /** Where the cursor stands after i steps that were all in order. */
    ghost predicate Reached(i: nat, err: Err, szFileName: seq<byte>, sensitivity: nat)
      requires Open() && WellFormed(s.data, end)
      reads this
    {
      && i <= end.entries && NoneNamed(s.data, end, i, szFileName, sensitivity)
      && (err == UnzOk ==> i < end.entries && cur == CursorAt(s.data, end, i))
      && (err != UnzOk ==> err == EndOfList && i == end.entries && cur.ok)
    }

    lemma FirstReached(was: Cursor, err: Err, szFileName: seq<byte>, sensitivity: nat)
      requires Open() && WellFormed(s.data, end) && (err, cur) == First(s.data, end, was)
      ensures err == UnzOk && Reached(0, err, szFileName, sensitivity)
    {
      assert Readable(s.data, end, 0);
    }

    /** One step on a well-formed directory. */
    lemma StepReached(i: nat, was: Cursor, err: Err, szFileName: seq<byte>, sensitivity: nat)
      requires Open() && WellFormed(s.data, end) && i < end.entries && was == CursorAt(s.data, end, i)
      requires NoneNamed(s.data, end, i, szFileName, sensitivity) && !SameName(s.data, end, i, szFileName, sensitivity)
      requires (err, cur) == Next(s.data, end, was)
      ensures Reached(i + 1, err, szFileName, sensitivity)
    {
      NextOnDirectory(s.data, end, i);
      NoneNamedStep(s.data, end, i, szFileName, sensitivity);
    }

    /** A step to another header goes forward in the file. */
    lemma NextOnHeader(was: Cursor, err: Err)
      requires Open() && OnHeader(s.data, Before(end), was) && (err, cur) == Next(s.data, end, was)
      ensures err == UnzOk ==> OnHeader(s.data, Before(end), cur)
      ensures (cur == was && err == EndOfList) || Place(was.pos + Before(end)) < Place(cur.pos + Before(end))
      ensures Place(cur.pos + Before(end)) < TWO63
    {
      hide ParseHeader, OnHeader, HeaderSize;
      NextInside(s.data, was, Before(end));
      if err == UnzOk {
        LoadedOnHeader(s.data, Before(end), was.(num := was.num + 1, pos := was.pos + HeaderSize(was.info)));
      }
    }

    /** unzLocateFile(): on a well-formed directory the first entry of that name becomes the current
        one; when there is none, the cursor is where it was. */
    method LocateFile(szFileName: seq<byte>, sensitivity: nat) returns (err: Err)
      requires Open() && 0 !in szFileName
      modifies this`cur, s
      ensures |szFileName| >= 256 ==> err == ParamError && cur == old(cur)
      ensures |szFileName| < 256 && !old(cur.ok) ==> err == EndOfList && cur == old(cur)
      ensures |szFileName| < 256 && old(cur.ok) && NamesWithoutNul(s.data, end) ==>
                if err == UnzOk then
                  && cur.num < end.entries && cur == CursorAt(s.data, end, cur.num)
                  && SameName(s.data, end, cur.num, szFileName, sensitivity)
                  && NoneNamed(s.data, end, cur.num, szFileName, sensitivity)
                else err == EndOfList && cur == old(cur) && NoneNamed(s.data, end, end.entries, szFileName, sensitivity)
    {
      hide ParseHeader, NameOf, SameName, OnHeader, NameInside, PosOf, NoneNamed, Readable, Next, Place;
      if |szFileName| >= MAX_NAME {
        return ParamError;
      }
      if !cur.ok {
        return EndOfList;
      }
      var saved := cur;
      err := GoToFirstFile();
      if err == UnzOk {
        LoadedOnHeader(s.data, Before(end), saved.(num := 0, pos := end.offset));
      }
      ghost var i: nat := 0;
      ghost var sound := NamesWithoutNul(s.data, end);
      if sound {
        FirstReached(saved, err, szFileName, sensitivity);
      }
      while err == UnzOk
        invariant err == UnzOk ==> OnHeader(s.data, Before(end), cur)
        invariant sound ==> Reached(i, err, szFileName, sensitivity)
        decreases TWO63 - Place(cur.pos + Before(end)), err == UnzOk
      {
        var same;
        err, same := CompareCurrent(szFileName, sensitivity, i);
        if err == UnzOk {
          if same {
            return;
          }
          ghost var was := cur;
          err := GoToNextFile();
          NextOnHeader(was, err);
          if sound {
            StepReached(i, was, err, szFileName, sensitivity);
            i := i + 1;
          }
        }
      }
      cur := saved.(ok := cur.ok);
    }

    /** Where the local header of the current file is looked for. */
    function LocalPlace(): nat
      requires Acceptable(end)
      reads this`cur
    {
      Place(cur.big.offset + Before(end))
    }

    /** unz64local_CheckCurrentFileCoherencyHeader(): the local header of the current file agrees
        with its central header. */
    method CheckCoherency() returns (err: Err, sizeVar: nat, extraAt: nat, extraSize: nat)
      requires Open()
      modifies s
      ensures err == UnzOk <==> Coherent(s.data, LocalPlace(), cur.info, cur.big)
      ensures err == UnzOk ==>
                && extraSize == LocalExtraSize(s.data, LocalPlace())
                && sizeVar == LocalNameSize(s.data, LocalPlace()) + extraSize
                && extraAt == cur.big.offset + LOCAL_SIZE + cur.info.nameSize
    {
      sizeVar, extraAt, extraSize := 0, 0, 0;
      var ok := s.Seek(cur.big.offset + Before(end));
      if !ok {
        return UnzErrno, sizeVar, extraAt, extraSize;
      }
      var flags;
      err, flags := CheckStart();
      err := CheckSizes(err, flags);
      var size := s.GetShort();
      if err == UnzOk && size != cur.info.nameSize {
        err := BadZipFile;
      }
      sizeVar := size;
      extraSize := s.GetShort();
      extraAt := cur.big.offset + LOCAL_SIZE + size;
      sizeVar := sizeVar + extraSize;
    }

    /** Magic, version, flags, method. */
    method CheckStart() returns (err: Err, flags: nat)
      modifies s
      ensures var p := old(s.at);
        && s.at == After(s.data, p, 10) && flags == Short(s.data, p + 6)
        && (err == UnzOk <==> Long(s.data, p) == LOCAL_SIG && Short(s.data, p + 8) == cur.info.method_
                              && Supported(cur.info.method_))
    {
      err := UnzOk;
      var data := s.GetLong();
      if data != LOCAL_SIG {
        err := BadZipFile;
      }
      data := s.GetShort();
      flags := s.GetShort();
      data := s.GetShort();
      if err == UnzOk && data != cur.info.method_ {
        err := BadZipFile;
      }
      if err == UnzOk && cur.info.method_ != 0 && cur.info.method_ != METHOD_BZIP2
        && cur.info.method_ != METHOD_DEFLATE {
        err := BadZipFile;
      }
    }

    /** Date, CRC and sizes; bit 3 of the flags says that they come after the data. */
    method CheckSizes(err0: Err, flags: nat) returns (err: Err)
      modifies s
      ensures var p := old(s.at);
        && s.at == After(s.data, p, 16)
        && (err == UnzOk <==> err0 == UnzOk && SizesAgree(s.data, p, flags, cur.info, cur.big))
    {
      err := err0;
      var data := s.GetLong();
      data := s.GetLong();
      if err == UnzOk && data != cur.info.crc && !HasDescriptor(flags) {
        err := BadZipFile;
      }
      data := s.GetLong();
      if data != MAXU32 && err == UnzOk && data != cur.big.csize && !HasDescriptor(flags) {
        err := BadZipFile;
      }
      data := s.GetLong();
      if data != MAXU32 && err == UnzOk && data != cur.big.usize && !HasDescriptor(flags) {
        err := BadZipFile;
      }
    }
  }

  /** unzOpenInternal(): an archive opens exactly when an acceptable end record is found, and then
      its cursor is on the first file. */
  method Open(data: File) returns (u: UnzFile?)
    ensures u != null <==> FindEnd(data).End?
    ensures u != null ==> fresh(u) && fresh(u.s) && u.s.data == data && u.end == FindEnd(data) && u.Open()
    ensures u != null && ParseHeader(data, u.end.offset + Before(u.end)).err == UnzOk ==>
              u.cur == CursorAt(data, u.end, 0)
  {
    hide ParseHeader, Search64, LastMark, ReadEnd64, ReadEnd;
    var s := new Stream(data);
    var central := SearchCentralDir64(s);
    var e;
    if central != INVALID {
      e := OpenEnd64(s, central);
    } else {
      central := Search(data, END_MARK);
      e := OpenEnd(s, central);
    }
    if !Acceptable(e) {
      return null;
    }
    u := new UnzFile(s, e);
    var err := u.GoToFirstFile();
  }
}
