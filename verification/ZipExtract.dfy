/** From a damaged file to the data of its entries: unzRepair() of ThirdParty/Minizip/mztools.c and
    then the extraction of ThirdParty/Minizip/miniunz.c, for stored entries. */
module ZipExtract {
  import opened ZipFormat
  import opened ZipSearch
  import opened ZipNames
  import opened ZipInfo
  import opened ZipReader
  import opened ZipRepair
  import opened ZipRecover
  import opened ZipRead
  import ZipRecords
  import ZipCrypt

  const SLASH: byte := 47
  const BACKSLASH: byte := 92
  const NAME_BUFFER: nat := 65537

  /** A recovered entry that is stored, with both sizes given. */
  predicate Stored(e: Entry)
  {
    Readback(e) && e.method_ == 0 && e.csize == e.usize < 0x8000_0000
  }

  predicate CrcRight(e: Entry, step: Step)
  {
    Crc32(step, 0, e.data) == e.crc
  }

  // ---- names of files and of directories --------------------------------

  predicate IsSlash(b: byte)
  {
    b == SLASH || b == BACKSLASH
  }

  /** Up to its first NUL the name is not empty and does not end in a slash. */
  predicate IsFileName(name: seq<byte>)
  {
    var s := CStr(name);
    s != [] && !IsSlash(s[|s| - 1])
  }

  lemma {:induction false} CStrOfBuffer(buf: seq<byte>, name: seq<byte>)
    requires |name| < |buf| && buf[..|name|] == name && buf[|name|] == 0
    ensures CStr(buf) == CStr(name)
    decreases |name|
  {
    if name != [] {
      assert buf[0] == name[0] && buf[1..][..|name| - 1] == name[1..];
      CStrOfBuffer(buf[1..], name[1..]);
    }
  }

  /** The loop that looks for filename_withoutpath. */
  method NamesFile(buf: array<byte>) returns (file: bool)
    requires 0 in buf[..]
    ensures file == IsFileName(buf[..])
  {
    var p, withoutPath := 0, 0;
    while buf[p] != 0
      invariant withoutPath <= p < buf.Length && 0 !in buf[..p] && exists z :: p <= z < buf.Length && buf[z] == 0
      invariant withoutPath == p <==> p == 0 || IsSlash(buf[p - 1])
      decreases buf.Length - p
    {
      if IsSlash(buf[p]) {
        withoutPath := p + 1;
      }
      p := p + 1;
    }
    CStrOfPrefix(buf[..], p);
    assert buf[..][..p] == buf[..p];
    file := buf[withoutPath] != 0;
    assert withoutPath < p ==> buf[withoutPath] in buf[..p];
  }

  /** A name is cut at its first NUL; it names a file unless nothing is left or what is left ends in '/'
      or '\\'. */
  lemma FileNames(name: seq<byte>, rest: seq<byte>)
    requires 0 !in name
    ensures IsFileName(name) <==> name != [] && name[|name| - 1] != 0x2f && name[|name| - 1] != 0x5c
    ensures IsFileName(name + [0] + rest) == IsFileName(name)
  {
    var buf := name + [0] + rest;
    assert buf[..|name|] == name;
    CStrOfBuffer(buf, name);
  }

  // ---- one entry --------------------------------------------------------

  /** What becomes of an entry: a directory (which is not created when paths are dropped), an output
      file that was not opened, or one that received these bytes. */
  datatype Extracted = MadeDirectory | NotWritten | Wrote(data: seq<byte>)

  /** `writes` says whether the output file gets opened, which an existing file and its owner can
      prevent. */
  function Output(e: Entry, writes: bool): Extracted
  {
    if !IsFileName(e.name) then MadeDirectory else if writes then Wrote(e.data) else NotWritten
  }

  /** The entry is a file, all of its data was read, and the CRC is wrong. */
  predicate Fails(e: Entry, writes: bool, step: Step)
  {
    IsFileName(e.name) && (writes || e.data == []) && !CrcRight(e, step)
  }

  /** The archive of the entries, open with the cursor on entry `i`. */
  ghost predicate CursorIsOn(u: UnzFile, es: seq<Entry>, i: nat)
    reads u
  {
    && i < |es| && Small(es)
    && u.s.data == Archive(es) && OpenedAs(u.end, es) && u.cur == SeenAt(es, i)
    && (forall j: nat :: j < |es| ==> Seen(Archive(es), es, j))
  }

  ghost predicate StandsOn(u: UnzFile, es: seq<Entry>, i: nat)
    reads u
  {
    CursorIsOn(u, es, i) && forall e :: e in es ==> Stored(e)
  }

  /** What opening the current entry finds. */
  lemma CurrentIsStored(u: UnzFile, es: seq<Entry>, i: nat, tab: ZipCrypt.Table)
    requires StandsOn(u, es, i)
    ensures u.Open() && var p := u.LocalPlace(); var at := DataAt(u.s.data, p);
      && u.cur.ok && Coherent(u.s.data, p, u.cur.info, u.cur.big) && u.cur.info.method_ == 0
      && u.cur.big.csize == u.cur.big.usize == |es[i].data| < 0x8000_0000 && u.cur.info.crc == es[i].crc < TWO32
      && at + |es[i].data| <= |u.s.data| && Content(u.s.data, at, u.cur.big.csize, false, tab, []) == es[i].data
  {
    hide Content, DataAt, Archive, LiesAt, Coherent, HeaderSeen;
    assert es[i] in es && Seen(Archive(es), es, i);
    RecoveredContent(es, i, tab);
    LocalInside(u.s.data, es, i);
  }

  /** What a raw read of an entry delivers, whatever its method is: its data, as they were in the file
      that was repaired. */
  method ExtractRaw(u: UnzFile, ghost es: seq<Entry>, ghost i: nat, bufSize: nat, step: Step, tab: ZipCrypt.Table)
    returns (err: Err, out: seq<byte>)
    requires CursorIsOn(u, es, i) && Readback(es[i])
    requires (es[i].method_ == 0 || es[i].method_ == 8 || es[i].method_ == 12)
    requires es[i].csize < 0x8000_0000 && (es[i].csize == 0 ==> es[i].usize == 0) && 1 <= bufSize < 0x8000_0000
    modifies u.s
    ensures err == UnzOk && out == es[i].data
  {
    hide Content, DataAt, Archive, LiesAt, Coherent, HeaderSeen, Reader.Complete, Crc32, Plain;
    assert Seen(Archive(es), es, i);
    RecoveredContent(es, i, tab);
    LocalInside(u.s.data, es, i);
    var r;
    err, r := OpenCurrentFile(u, true, false, [], step, tab);
    err, out := Extract(r, bufSize);
  }

  lemma LocalInside(d: File, es: seq<Entry>, i: nat)
    requires i < |es| && LocalSeen(d, es, i)
    ensures Place(LocalPos(es, i)) == LocalPos(es, i) <= |d|
  {
    PlaceInside(d, LocalPos(es, i));
  }

  /** The header of the current entry and its name. */
  lemma CurrentHeader(u: UnzFile, es: seq<Entry>, i: nat)
    requires StandsOn(u, es, i)
    ensures u.Open() && var p := u.cur.pos + Before(u.end);
      && Place(p) == p && NameInside(u.s.data, p) && ParseHeader(u.s.data, p).err == UnzOk && |es[i].name| < K64
      && ParseHeader(u.s.data, p).info.nameSize == FixedInfo(u.s.data, p).nameSize == |es[i].name|
      && LiesAt(es[i].name, u.s.data, NameAt(u.s.data, p))
  {
    hide LocalSeen, Archive, Lands, NameInside, Locals, Directory, ParseHeader;
    assert es[i] in es && Seen(Archive(es), es, i);
    LandsInside(u.s.data, CentralPos(es, i));
    ParsedIsFixed(u.s.data, CentralPos(es, i));
  }

  /** A name that was read into the buffer is still the name. */
  lemma NameInBuffer(d: seq<byte>, p: nat, name: seq<byte>, buf: seq<byte>, was: seq<byte>)
    requires LiesAt(name, d, p) && |name| < |buf| && Filled(d, p, |name|, true, buf, was)
    ensures 0 in buf && IsFileName(buf) == IsFileName(name)
  {
    assert buf[|name|] == 0;
    CStrOfBuffer(buf, name);
  }

  /** unzGetCurrentFileInfo64() and the look at the name. */
  method CurrentNamesFile(u: UnzFile, ghost es: seq<Entry>, ghost i: nat) returns (err: Err, file: bool)
    requires StandsOn(u, es, i)
    modifies u.s
    ensures err == UnzOk && file == IsFileName(es[i].name)
  {
    hide Small, Stored, Seen, OpenedAs, SeenAt, Archive, Before, NameInside, ParseHeader, FixedInfo, LiesAt, Filled,
      IsFileName, NameAt, Rooms;
    CurrentHeader(u, es, i);
    var name := new byte[NAME_BUFFER];
    ghost var was := name[..];
    ghost var p := u.cur.pos + Before(u.end);
    u.NameHasRoom(u.s.data, p, name);
    var h := GetInfo(u.s, u.cur.pos + Before(u.end), name, null, null);
    err := h.err;
    NameInBuffer(u.s.data, NameAt(u.s.data, p), es[i].name, name[..], was);
    file := NamesFile(name);
  }

  /** Opening and closing without a read in between. */
  method Skip(r: Reader) returns (err: Err)
    requires r.Valid() && r.delivered == []
    ensures err == if !r.raw && r.usize == 0 && Crc32(r.step, 0, []) != r.wait then CrcError else UnzOk
  {
    err := r.CloseCurrentFile();
  }

  /** do_extract_currentfile(). */
  method ExtractCurrent(u: UnzFile, ghost es: seq<Entry>, ghost i: nat, writes: bool, bufSize: nat, step: Step,
                        tab: ZipCrypt.Table)
    returns (err: Err, out: Extracted)
    requires StandsOn(u, es, i) && 1 <= bufSize < 0x8000_0000
    modifies u.s
    ensures StandsOn(u, es, i) && out == Output(es[i], writes) && err == if Fails(es[i], writes, step) then CrcError
            else UnzOk
  {
    hide Small, Seen, OpenedAs, SeenAt, Coherent, Content, Archive, Reader.Complete, Crc32, IsFileName;
    var file;
    err, file := CurrentNamesFile(u, es, i);
    if !file {
      return UnzOk, MadeDirectory;
    }
    CurrentIsStored(u, es, i, tab);
    var r;
    err, r := OpenCurrentFile(u, false, false, [], step, tab);
    assert r.content == es[i].data && r.Complete();
    if writes {
      var data;
      err, data := Extract(r, bufSize);
      out := Wrote(data);
    } else {
      out := NotWritten;
      err := Skip(r);
    }
  }

  // ---- all entries ------------------------------------------------------

  /** Every announced entry was extracted, or all up to the first one that fails. */
  ghost predicate ExtractedFront(es: seq<Entry>, writes: nat -> bool, step: Step, err: Err, outs: seq<Extracted>)
  {
    && |outs| <= Announced(es) && (forall i: nat :: i < |outs| ==> outs[i] == Output(es[i], writes(i)))
    && if forall i: nat :: i < Announced(es) ==> !Fails(es[i], writes(i), step)
       then err == UnzOk && |outs| == Announced(es)
       else
         && err == CrcError && outs != [] && Fails(es[|outs| - 1], writes(|outs| - 1), step)
         && forall i: nat :: i < |outs| - 1 ==> !Fails(es[i], writes(i), step)
  }

  /** Every file whose output was opened holds the data of its entry, and unless it is the last one with
      an error, its CRC is right; directories and files that were not opened hold nothing. */
  lemma WhatComesOut(es: seq<Entry>, writes: nat -> bool, step: Step, err: Err, outs: seq<Extracted>)
    requires ExtractedFront(es, writes, step, err, outs)
    ensures |outs| <= |es| && (err == UnzOk ==> |outs| == |es| || |outs| == 0xffff < |es|)
    ensures forall i: nat :: i < |outs| && IsFileName(es[i].name) && writes(i) ==>
      outs[i] == Wrote(es[i].data) && (i < |outs| - 1 || err == UnzOk ==> Crc32(step, 0, es[i].data) == es[i].crc)
    ensures forall i: nat :: i < |outs| && IsFileName(es[i].name) && !writes(i) ==> outs[i] == NotWritten
    ensures forall i: nat :: i < |outs| && !IsFileName(es[i].name) ==> outs[i] == MadeDirectory
  {
    hide IsFileName, Crc32;
  }

  /** The outputs so far, without a failure. */
  ghost predicate AllRight(es: seq<Entry>, writes: nat -> bool, step: Step, outs: seq<Extracted>)
  {
    |outs| <= Announced(es) && forall i: nat :: i < |outs| ==>
        outs[i] == Output(es[i], writes(i)) && !Fails(es[i], writes(i), step)
  }

  /** One more output, and how the loop can end behind it. */
  lemma OutputMore(es: seq<Entry>, writes: nat -> bool, step: Step, outs: seq<Extracted>)
    requires AllRight(es, writes, step, outs) && |outs| < Announced(es)
    ensures var i := |outs|; var more := outs + [Output(es[i], writes(i))];
      if Fails(es[i], writes(i), step) then ExtractedFront(es, writes, step, CrcError, more)
        else AllRight(es, writes, step, more)
  {
    hide Output, Fails;
  }

  lemma AllOut(es: seq<Entry>, writes: nat -> bool, step: Step, outs: seq<Extracted>)
    requires AllRight(es, writes, step, outs) && |outs| == Announced(es)
    ensures ExtractedFront(es, writes, step, UnzOk, outs)
  {
  }

  /** On to the next entry. */
  method StepToNext(u: UnzFile, ghost es: seq<Entry>, ghost i: nat) returns (err: Err)
    requires StandsOn(u, es, i) && i + 1 < |es|
    modifies u`cur, u.s
    ensures err == UnzOk && StandsOn(u, es, i + 1)
  {
    hide Small, HeaderSeen, LocalSeen, SeenAt, Archive, Stored;
    assert Seen(Archive(es), es, i + 1);
    WalkStep(u.s.data, u.end, es, i);
    err := u.GoToNextFile();
  }

  /** The loop of do_extract(). */
  method ExtractAll(u: UnzFile, ghost es: seq<Entry>, writes: nat -> bool, bufSize: nat, step: Step,
                    tab: ZipCrypt.Table)
    returns (err: Err, outs: seq<Extracted>)
    requires u.end.End? && u.end.entries == Announced(es) && (es != [] ==> StandsOn(u, es, 0))
             && 1 <= bufSize < 0x8000_0000
    modifies u`cur, u.s
    ensures ExtractedFront(es, writes, step, err, outs)
  {
    hide StandsOn, AllRight, ExtractedFront, Output, Fails;
    var n := u.end.entries;
    outs, err := [], UnzOk;
    NoneOut(es, writes, step);
    var i := 0;
    while i < n
      invariant n == Announced(es) && i == |outs| <= n && (i < n ==> StandsOn(u, es, i))
      invariant err == UnzOk && AllRight(es, writes, step, outs)
    {
      var out;
      err, out := ExtractCurrent(u, es, i, writes(i), bufSize, step, tab);
      OutputMore(es, writes, step, outs);
      outs := outs + [out];
      if err != UnzOk {
        return;
      }
      if i + 1 < n {
        err := StepToNext(u, es, i);
        if err != UnzOk {
          return;
        }
      }
      i := i + 1;
    }
    AllOut(es, writes, step, outs);
  }

  lemma NoneOut(es: seq<Entry>, writes: nat -> bool, step: Step)
    ensures AllRight(es, writes, step, [])
  {
  }

  /** Entries with which repairing gives an archive that holds no Zip64 locator, all of them stored. */
  ghost predicate Extractable(es: seq<Entry>)
  {
    Small(es) && Search64(Archive(es)) == INVALID && forall e :: e in es ==> Stored(e)
  }

  lemma StoredReadBack(es: seq<Entry>)
    requires forall e :: e in es ==> Stored(e)
    ensures forall e :: e in es ==> Readback(e)
  {
  }

  lemma ReadBackRecoverable(es: seq<Entry>)
    requires forall e :: e in es ==> Readback(e)
    ensures AllRecoverable(es)
  {
    forall i | 0 <= i < |es|
      ensures Recoverable(es[i])
    {
      assert es[i] in es;
    }
  }

  lemma OpensOnFirst(es: seq<Entry>)
    requires Small(es) && es != [] && forall e :: e in es ==> Readback(e)
    ensures Acceptable(EndOf(es)) && Before(EndOf(es)) == 0 && OpenedAs(EndOf(es), es)
    ensures ParseHeader(Archive(es), EndOf(es).offset + Before(EndOf(es))).err == UnzOk
    ensures CursorAt(Archive(es), EndOf(es), 0) == SeenAt(es, 0)
    ensures forall j: nat :: j < |es| ==> Seen(Archive(es), es, j)
  {
    hide ParseHeader, Lands, NameInside, Archive, Seen, SeenAt, Readback, Locals, Directory;
    DirectoryFits(es);
    AllSeen(es);
    CursorOn(Archive(es), EndOf(es), es, 0);
  }

  datatype Salvaged = NotRepaired(error: RepairError) | NotOpened | Salvaged(err: Err, outs: seq<Extracted>)

  /** What extracting a rebuilt archive comes to: its entries, or nothing and no error, or no archive. */
  ghost predicate Outcome(es: seq<Entry>, writes: nat -> bool, step: Step, r: Salvaged)
  {
    if NoStrayMark(es) then r.Salvaged? && ExtractedFront(es, writes, step, r.err, r.outs)
    else if |Locals(es)| == END_SIG then r == Salvaged(UnzOk, [])
    else r == NotOpened
  }

  lemma NothingToExtract(writes: nat -> bool, step: Step, err: Err, outs: seq<Extracted>)
    requires ExtractedFront([], writes, step, err, outs)
    ensures err == UnzOk && outs == []
  {
  }

  /** Open a rebuilt archive and extract all of it. */
  method OpenAndExtract(archive: File, ghost es: seq<Entry>, writes: nat -> bool, bufSize: nat, step: Step,
                        tab: ZipCrypt.Table)
    returns (r: Salvaged)
    requires 1 <= bufSize < 0x8000_0000 && archive == Archive(es) && Extractable(es)
    ensures Outcome(es, writes, step, r)
  {
    hide Stored, Archive, Small, SeenAt, Seen, ParseHeader, NoStrayMark, Search64, CursorAt, FindEnd, OpenedAs, Before,
      Acceptable, ExtractedFront, Locals, Directory;
    StoredReadBack(es);
    ReadBackRecoverable(es);
    ArchiveOpens(es);
    ghost var held := if NoStrayMark(es) then es else [];
    if held != [] {
      OpensOnFirst(es);
    }
    var u := ZipReader.Open(archive);
    if u == null {
      return NotOpened;
    }
    var err, outs := ExtractAll(u, held, writes, bufSize, step, tab);
    if held == [] {
      NothingToExtract(writes, step, err, outs);
    }
    r := Salvaged(err, outs);
  }

  /** A damaged file, repaired, opened and extracted: the outputs are the data of the recovered
      entries, in order, as they stand in the damaged file (RepairThenRead says which ones they are).
      Extraction stops behind the first file whose CRC is wrong, and behind 65535 entries.  When the
      end record holds a second mark, nothing is extracted. */
  method RepairAndExtract(input: seq<byte>, mem: nat -> bool, writes: nat -> bool, bufSize: nat, step: Step,
                          tab: ZipCrypt.Table)
    returns (r: Salvaged)
    requires 1 <= bufSize < 0x8000_0000
    requires Recover(input, mem).Entries? ==> Extractable(Recover(input, mem).entries)
    ensures Recover(input, mem).Broken? ==> r == NotRepaired(Recover(input, mem).error)
    ensures Recover(input, mem).Entries? ==>
              Kept(input, Recover(input, mem).entries) && Outcome(Recover(input, mem).entries, writes, step, r)
  {
    hide Recover, Archive, NoStrayMark, Outcome, Kept, Search64, Stored;
    var repaired := UnzRepair(input, mem);
    if repaired.Failed? {
      return NotRepaired(repaired.error);
    }
    RepairKeepsEntries(input, mem);
    ArchiveParts(Recover(input, mem).entries);
    r := OpenAndExtract(repaired.archive, Recover(input, mem).entries, writes, bufSize, step, tab);
  }

  // ---- encrypted entries ------------------------------------------------

  /** An entry whose data were encoded with this password, behind a 12-byte header. */
  predicate Encrypted(e: Entry, tab: ZipCrypt.Table, password: seq<byte>, head: seq<byte>, plain: seq<byte>)
  {
    && Readback(e) && e.method_ == 0 && |head| == ZipCrypt.HEAD
    && e.csize == ZipCrypt.HEAD + |plain| && e.usize == |plain|
    && var k := ZipCrypt.Absorb(ZipCrypt.Code(tab), ZipCrypt.START, CStr(password));
       e.data == ZipCrypt.Encode(ZipCrypt.Code(tab), k, head + plain)
  }

  /** Any plain text can be such an entry. */
  lemma EncryptedExists(tab: ZipCrypt.Table, password: seq<byte>, head: seq<byte>, plain: seq<byte>,
                        crc: ZipCrypt.word32)
    requires |head| == ZipCrypt.HEAD && |plain| < 0x7000_0000
    ensures var k := ZipCrypt.Absorb(ZipCrypt.Code(tab), ZipCrypt.START, CStr(password));
      var data := ZipCrypt.Encode(ZipCrypt.Code(tab), k, head + plain);
      Encrypted(Entry(10, 1, 0, 0, 0, crc, |data|, |plain|, [0x41], [], data), tab, password, head, plain)
  {
    hide ZipCrypt.Encode, ZipCrypt.Absorb, ZipCrypt.Code;
  }

  /** In an archive there are 12 more bytes behind every entry: those of the directory. */
  lemma RoomBehind(es: seq<Entry>, i: nat)
    requires i < |es|
    ensures LocalPos(es, i) + |Local(es[i])| + CENTRAL_SIZE + END_SIZE <= |Archive(es)|
  {
    hide Local, Central;
    PrefixSizes(es, i + 1);
    assert es[..i + 1][..i] == es[..i];
    ArchiveParts(es);
    assert |Directory(es)| >= CENTRAL_SIZE;
  }

  /** The reader finds an encrypted entry of an archive as ExtractWithPassword asks for it. */
  lemma SealedInArchive(u: UnzFile, es: seq<Entry>, i: nat, tab: ZipCrypt.Table, password: seq<byte>, head: seq<byte>,
                        plain: seq<byte>)
    requires CursorIsOn(u, es, i) && Encrypted(es[i], tab, password, head, plain)
    ensures Sealed(u, tab, password, head, plain) && u.cur.info.method_ == 0 && u.cur.info.crc == es[i].crc
  {
    hide Archive, Seen, SeenAt, OpenedAs, ZipCrypt.Encode, ZipCrypt.Absorb, ZipCrypt.Code, Coherent, Locals, Directory,
      LiesAt, DataAt, Readback;
    CurrentSeen(u, es, i);
    RoomBehind(es, i);
  }

  /** What the cursor says about the current entry, and where its data lie. */
  lemma CurrentSeen(u: UnzFile, es: seq<Entry>, i: nat)
    requires CursorIsOn(u, es, i) && Readback(es[i])
    requires es[i].method_ == 0 || es[i].method_ == 8 || es[i].method_ == 12
    ensures u.Open() && u.cur.ok && Coherent(u.s.data, u.LocalPlace(), u.cur.info, u.cur.big)
    ensures u.cur.info.method_ == es[i].method_ && u.cur.info.crc == es[i].crc < TWO32
    ensures u.cur.big.csize == es[i].csize < TWO64 && u.cur.big.usize == es[i].usize
    ensures LiesAt(es[i].data, u.s.data, DataAt(u.s.data, u.LocalPlace()))
    ensures DataAt(u.s.data, u.LocalPlace()) == LocalPos(es, i) + LOCAL_SIZE + |es[i].name| + |es[i].extra|
  {
    var p := LocalPos(es, i);
    CursorSeen(u, es, i);
    LocalIsSeen(u.s.data, es, i);
    hide *;
    assert DataAt(u.s.data, p) == DataAt(u.s.data, u.LocalPlace());
  }

  lemma CursorSeen(u: UnzFile, es: seq<Entry>, i: nat)
    requires CursorIsOn(u, es, i) && Readback(es[i])
    ensures u.Open() && u.cur == SeenAt(es, i) && u.LocalPlace() == LocalPos(es, i) && LocalSeen(u.s.data, es, i)
    ensures u.cur.ok && u.cur.info.method_ == es[i].method_ && u.cur.info.crc == es[i].crc < TWO32
    ensures u.cur.big.csize == es[i].csize < TWO64 && u.cur.big.usize == es[i].usize
  {
    hide Archive, HeaderSeen, LocalSeen, Locals, Directory, Plain;
    assert Seen(Archive(es), es, i);
    LocalInside(u.s.data, es, i);
  }

  lemma LocalIsSeen(d: seq<byte>, es: seq<Entry>, i: nat)
    requires i < |es| && LocalSeen(d, es, i) && Fits(es[i])
    ensures var p := LocalPos(es, i);
      && (Coherent(d, p, SeenAt(es, i).info, SeenAt(es, i).big) <==> Supported(es[i].method_))
      && DataAt(d, p) == p + LOCAL_SIZE + |es[i].name| + |es[i].extra| && LiesAt(es[i].data, d, DataAt(d, p))
  {
    hide Coherent, LiesAt, Local, SeenAt, LocalPos;
    LocalParts(es[i], d, LocalPos(es, i));
    ZipRecords.LocalFixed(es[i], d, LocalPos(es, i));
  }

  /** Open an archive and read its first entry with the password it was written with: its plain
      bytes, and an error exactly when their CRC is not the announced one. */
  method OpenAndDecrypt(archive: File, ghost es: seq<Entry>, password: seq<byte>, ghost head: seq<byte>,
                        ghost plain: seq<byte>, bufSize: nat, step: Step, tab: ZipCrypt.Table)
    returns (err: Err, out: seq<byte>)
    requires 1 <= bufSize < 0x8000_0000 && archive == Archive(es) && Small(es) && Search64(Archive(es)) == INVALID
    requires es != [] && (forall e :: e in es ==> Readback(e)) && NoStrayMark(es)
             && Encrypted(es[0], tab, password, head, plain)
    ensures out == plain && err == if Crc32(step, 0, plain) != es[0].crc then CrcError else UnzOk
  {
    hide Encrypted, Readback, Archive, Small, SeenAt, Seen, ParseHeader, NoStrayMark, Search64, CursorAt, FindEnd,
      OpenedAs, Before, Acceptable, Locals, Directory, Sealed, Crc32;
    ReadBackRecoverable(es);
    ArchiveOpens(es);
    OpensOnFirst(es);
    var u := ZipReader.Open(archive);
    SealedInArchive(u, es, 0, tab, password, head, plain);
    err, out := ExtractWithPassword(u, false, password, head, plain, bufSize, step, tab);
  }
}
