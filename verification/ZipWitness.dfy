/** Rebuilt archives that unzOpen() of ThirdParty/Minizip/unzip.c refuses or takes for empty, and one
    whose walk does not end with the end of the list. */
module ZipWitness {
  import opened ZipFormat
  import opened ZipSearch
  import opened ZipInfo
  import opened ZipReader
  import opened ZipRepair
  import opened ZipRecover

  /** A stored entry whose name is made of `a` times the letter A, with `k` bytes of data. */
  function Made(a: nat, k: nat): Entry
  {
    Entry(10, 0, 0, 0, 0, 0, k, k, seq(a, _ => 0x41), [], seq(k, _ => 0))
  }

  lemma MadeIsFine(a: nat, k: nat)
    requires 1 <= a < 1024 && k < 0x8000_0000
    ensures Readback(Made(a, k)) && |Local(Made(a, k))| == LOCAL_SIZE + a + k
  {
  }

  // ---- no Zip64 locator -------------------------------------------------

  /** Nowhere are two bytes as in the middle of the signature of a Zip64 locator. */
  predicate NoPair(s: seq<byte>)
  {
    forall i :: 0 <= i < |s| - 1 ==> !(s[i] == 0x4b && s[i + 1] == 0x06)
  }

  lemma NoLocator(d: seq<byte>)
    requires NoPair(d)
    ensures Search64(d) == INVALID
  {
    assert forall k :: 0 <= k < |d| - 1 ==> !(d[k] == LOCATOR_MARK[1] && d[k + 1] == LOCATOR_MARK[2]);
  }

  /** Records start with the letter P. */
  lemma NoPairConcat(a: seq<byte>, b: seq<byte>)
    requires NoPair(a) && NoPair(b) && (b != [] ==> b[0] != 0x06)
    ensures NoPair(a + b)
  {
    var s := a + b;
    forall i | 0 <= i < |s| - 1
      ensures !(s[i] == 0x4b && s[i + 1] == 0x06)
    {
      if i + 1 < |a| {
        assert s[i] == a[i] && s[i + 1] == a[i + 1];
      } else if i >= |a| {
        assert s[i] == b[i - |a|] && s[i + 1] == b[i + 1 - |a|];
      }
    }
  }

  lemma NoPairSame(n: nat, x: byte)
    requires x != 0x06
    ensures NoPair(seq(n, _ => x))
  {
  }

  predicate NoPairFields(xs: seq<nat>)
  {
    && (forall i :: 0 <= i < |xs| ==> !(ByteOf(xs[i], 0) == 0x4b && ByteOf(xs[i], 1) == 0x06))
    && (forall i :: 0 <= i < |xs| - 1 ==> !(ByteOf(xs[i], 1) == 0x4b && ByteOf(xs[i + 1], 0) == 0x06))
  }

  lemma NoPairShorts(xs: seq<nat>)
    requires NoPairFields(xs)
    ensures NoPair(Shorts(xs))
  {
    hide ByteOf;
    var s := Shorts(xs);
    forall j | 0 <= j < |s| - 1
      ensures !(s[j] == 0x4b && s[j + 1] == 0x06)
    {
      var i := j / 2;
      if j % 2 == 0 {
        assert (j + 1) / 2 == i && (j + 1) % 2 == 1;
      } else {
        assert (j + 1) / 2 == i + 1 && (j + 1) % 2 == 0;
        assert !(ByteOf(xs[i], 1) == 0x4b && ByteOf(xs[i + 1], 0) == 0x06);
      }
    }
  }

  lemma NoPairLocal(a: nat, k: nat)
    requires 1 <= a < 1024 && k < K64 * K64 && NoPairFields(LocalFields(Made(a, k)))
    ensures NoPair(Local(Made(a, k))) && Local(Made(a, k))[0] == 0x50
  {
    var e := Made(a, k);
    NoPairShorts(LocalFields(e));
    NoPairSame(a, 0x41);
    NoPairSame(k, 0);
    var row := Shorts(LocalFields(e));
    assert row[0] == 0x50;
    hide Shorts, NoPair;
    NoPairConcat(row, e.name);
    NoPairConcat(row + e.name, []);
    NoPairConcat(row + e.name + e.extra, e.data);
  }

  lemma NoPairCentral(a: nat, k: nat, offset: nat)
    requires 1 <= a < 1024 && NoPairFields(CentralFields(Made(a, k), offset))
    ensures NoPair(Central(Made(a, k), offset)) && Central(Made(a, k), offset)[0] == 0x50
  {
    var e := Made(a, k);
    NoPairShorts(CentralFields(e, offset));
    NoPairSame(a, 0x41);
    var row := Shorts(CentralFields(e, offset));
    assert row[0] == 0x50;
    hide Shorts, NoPair;
    NoPairConcat(row, e.name);
    NoPairConcat(row + e.name, []);
  }

  // ---- many entries -----------------------------------------------------

  function Repeat(e: Entry, n: nat): (r: seq<Entry>)
    ensures |r| == n && forall i :: 0 <= i < n ==> r[i] == e
  {
    seq(n, _ => e)
  }

  lemma RepeatStep(e: Entry, n: nat)
    ensures Repeat(e, n + 1) == Repeat(e, n) + [e]
  {
  }

  const UNIT: nat := 512

  /** An entry that takes up 512 bytes in front of the directory and 136 in it. */
  const BRICK: Entry := Made(90, UNIT - LOCAL_SIZE - 90)

  lemma BrickSizes()
    ensures |Local(BRICK)| == UNIT && |BRICK.name| == 90 && |BRICK.extra| == 0 && Readback(BRICK)
  {
    MadeIsFine(90, UNIT - LOCAL_SIZE - 90);
  }

  lemma BrickNoPair(offset: nat)
    requires offset % UNIT == 0 && offset < 0x0600_0000
    ensures NoPair(Local(BRICK)) && Local(BRICK)[0] == 0x50
    ensures NoPair(Central(BRICK, offset)) && Central(BRICK, offset)[0] == 0x50
  {
    var k := UNIT - LOCAL_SIZE - 90;
    BrickLocal();
    EvenBytes(offset);
    hide NoPair, NoPairFields, Local, Central, Made, ByteOf, Lo, Hi;
    NoPairLocal(90, k);
    CentralNoPair(90, k, offset);
    NoPairCentral(90, k, offset);
  }

  lemma BrickLocal()
    ensures NoPairFields(LocalFields(BRICK))
  {
    assert Lo(UNIT - LOCAL_SIZE - 90) == 392 && Hi(UNIT - LOCAL_SIZE - 90) == 0 && Lo(0) == 0 && Hi(0) == 0;
    hide Lo, Hi;
  }

  /** The bytes of an offset that is a multiple of 512. */
  lemma EvenBytes(offset: nat)
    requires offset % UNIT == 0 && offset < 0x0600_0000
    ensures ByteOf(Lo(offset), 0) == 0 && ByteOf(Lo(offset), 1) != 0x4b && ByteOf(Hi(offset), 1) < 0x06
  {
    var q, hi := offset / UNIT, offset / K64;
    var m := q - 128 * hi;
    assert offset == UNIT * q;
    assert offset % K64 == UNIT * m;
    assert UNIT * m % 256 == 0 && UNIT * m / 256 == 2 * m;
  }

  lemma CentralNoPair(a: nat, k: nat, offset: nat)
    requires 1 <= a < 1024 && k < 1024 && a % 256 != 0x06 && k % 256 != 0x06
    requires ByteOf(Lo(offset), 0) == 0 && ByteOf(Lo(offset), 1) != 0x4b && ByteOf(Hi(offset), 1) < 0x06
    ensures NoPairFields(CentralFields(Made(a, k), offset))
  {
    assert Lo(k) == k && Hi(k) == 0;
    hide Lo, Hi;
  }

  lemma {:induction false} BrickRow(n: nat)
    requires n <= 0xffff
    ensures |Locals(Repeat(BRICK, n))| == UNIT * n && |Directory(Repeat(BRICK, n))| == 136 * n
  {
    if n > 0 {
      BrickRow(n - 1);
      BrickSizes();
      RepeatStep(BRICK, n - 1);
      OneMore(Repeat(BRICK, n - 1), BRICK);
    }
  }

  lemma Multiple(n: nat)
    requires n <= 0xffff
    ensures UNIT * n % UNIT == 0 && UNIT * n < 0x0600_0000
  {
  }

  /** No signature of a locator in a row of bricks. */
  lemma {:induction false} Bricks(n: nat)
    requires n <= 0xffff
    ensures var es := Repeat(BRICK, n);
      && NoPair(Locals(es)) && NoPair(Directory(es))
      && (n > 0 ==> Locals(es)[0] == 0x50 && Directory(es)[0] == 0x50)
  {
    if n > 0 {
      hide Local, Central, NoPair, Repeat, Locals, Directory;
      var es := Repeat(BRICK, n - 1);
      Bricks(n - 1);
      BrickRow(n - 1);
      RepeatStep(BRICK, n - 1);
      OneMore(es, BRICK);
      Multiple(n - 1);
      BrickNoPair(|Locals(es)|);
      NoPairConcat(Locals(es), Local(BRICK));
      NoPairConcat(Directory(es), Central(BRICK, |Locals(es)|));
    }
  }

  lemma ArchiveNoLocator(es: seq<Entry>)
    requires NoPair(Locals(es)) && NoPair(Directory(es)) && (Directory(es) != [] ==> Directory(es)[0] == 0x50)
    requires NoPairFields(EndFields(Announced(es), |Directory(es)|, |Locals(es)|))
    ensures Search64(Archive(es)) == INVALID
  {
    var fields := EndFields(Announced(es), |Directory(es)|, |Locals(es)|);
    NoPairShorts(fields);
    assert Shorts(fields)[0] == 0x50;
    hide NoPair, NoPairFields, Locals, Directory, Shorts, Search64;
    NoPairConcat(Locals(es), Directory(es));
    NoPairConcat(Locals(es) + Directory(es), Shorts(fields));
    NoLocator(Archive(es));
  }

  // ---- an archive that opens empty --------------------------------------

  /** A stored entry called "A" whose local entry is as long as the end signature is big. */
  const LONG_ENTRY: Entry := Made(1, END_SIG - 31)

  lemma OneEntry(e: Entry)
    ensures Locals([e]) == Local(e) && Directory([e]) == Central(e, 0)
  {
    assert [e][..0] == [];
  }

  /** The position of the directory spells the signature in the end record of this archive, so it
      opens as an archive without entries, although all of it is as it should be. */
  lemma StrayMarkEmpties()
    ensures var es := [LONG_ENTRY];
      && Small(es) && (forall e :: e in es ==> Readback(e)) && Search64(Archive(es)) == INVALID
      && !NoStrayMark(es) && FindEnd(Archive(es)) == End(0, 0, 0, |Locals(es)| + |Directory(es)| + 16)
  {
    var es, k := [LONG_ENTRY], END_SIG - 31;
    OneEntry(LONG_ENTRY);
    MadeIsFine(1, k);
    LongNoPair();
    NoPairLocal(1, k);
    NoPairCentral(1, k, 0);
    MarkInNumbers(Announced(es), |Directory(es)|);
    hide Locals, Directory, Local, Central, NoPair, NoPairFields, EndFields, Archive, Search64, Readback, Made, FindEnd;
    ArchiveNoLocator(es);
    ArchiveOpens(es);
  }

  lemma LongNoPair()
    ensures NoPairFields(LocalFields(Made(1, END_SIG - 31))) && NoPairFields(CentralFields(Made(1, END_SIG - 31), 0))
    ensures NoPairFields(EndFields(1, CENTRAL_SIZE + 1, END_SIG))
  {
    LongLocal();
    LongCentral();
    LongEnd();
  }

  lemma LongLocal()
    ensures NoPairFields(LocalFields(Made(1, END_SIG - 31)))
  {
    assert Lo(END_SIG - 31) == 0x4b31 && Hi(END_SIG - 31) == 0x0605;
    hide Lo, Hi;
  }

  lemma LongCentral()
    ensures NoPairFields(CentralFields(Made(1, END_SIG - 31), 0))
  {
    assert Lo(END_SIG - 31) == 0x4b31 && Hi(END_SIG - 31) == 0x0605 && Lo(0) == 0 && Hi(0) == 0;
    hide Lo, Hi;
  }

  lemma LongEnd()
    ensures NoPairFields(EndFields(1, CENTRAL_SIZE + 1, END_SIG))
  {
    assert Lo(END_SIG) == 0x4b50 && Hi(END_SIG) == 0x0605 && Lo(CENTRAL_SIZE + 1) == 47 && Hi(CENTRAL_SIZE + 1) == 0;
    hide Lo, Hi;
  }

  lemma MarkInNumbers(n: nat, size: nat)
    ensures MarkAt(EndRecord(n, size, END_SIG), END_MARK, 16)
  {
  }

  // ---- an archive that does not open ------------------------------------

  /** 19280 entries with 2622981 bytes of directory. */
  const MANY: seq<Entry> := Repeat(BRICK, 19279) + [Made(991, 0)]

  /** The signature stands across the number of entries and the size, where the reader does not
      accept it. */
  lemma StrayMarkRefuses()
    ensures Small(MANY) && (forall e :: e in MANY ==> Readback(e)) && Search64(Archive(MANY)) == INVALID
    ensures !NoStrayMark(MANY) && FindEnd(Archive(MANY)) == NoEnd
  {
    ManySizes();
    ManyNoPair();
    ManyReadback();
    LastEnd();
    MarkAcross();
    hide MANY, Locals, Directory, NoPair, NoPairFields, EndFields, Archive, Search64, Readback, FindEnd, EndRecord;
    ArchiveNoLocator(MANY);
    ArchiveOpens(MANY);
  }

  lemma ManyReadback()
    ensures (forall e :: e in MANY ==> Readback(e)) && AllRecoverable(MANY)
  {
    BrickSizes();
    MadeIsFine(991, 0);
  }

  lemma ManySizes()
    ensures |MANY| == 19280 && |Locals(MANY)| == 9871869 && |Directory(MANY)| == 2622981
  {
    hide Locals, Directory;
    BrickRow(19279);
    MadeIsFine(991, 0);
    OneMore(Repeat(BRICK, 19279), Made(991, 0));
  }

  lemma ManyNoPair()
    ensures NoPair(Locals(MANY)) && NoPair(Directory(MANY)) && |Directory(MANY)| > 0 && Directory(MANY)[0] == 0x50
  {
    hide Locals, Directory, Local, Central, NoPair, NoPairFields, Made, Repeat;
    var bricks, last := Repeat(BRICK, 19279), Made(991, 0);
    Bricks(19279);
    BrickRow(19279);
    OneMore(bricks, last);
    var offset := |Locals(bricks)|;
    LastLocal();
    LastCentral();
    NoPairLocal(991, 0);
    NoPairCentral(991, 0, offset);
    NoPairConcat(Locals(bricks), Local(last));
    NoPairConcat(Directory(bricks), Central(last, offset));
  }

  lemma LastCentral()
    ensures NoPairFields(CentralFields(Made(991, 0), 9870848))
  {
    assert Lo(9870848) == 0x9e00 && Hi(9870848) == 0x96;
    CentralNoPair(991, 0, 9870848);
  }

  lemma LastLocal()
    ensures NoPairFields(LocalFields(Made(991, 0)))
  {
    assert Lo(0) == 0 && Hi(0) == 0;
    hide Lo, Hi;
  }

  lemma LastEnd()
    ensures NoPairFields(EndFields(19280, 2622981, 9871869))
  {
    assert Lo(2622981) == 0x0605 && Hi(2622981) == 0x28 && Lo(9871869) == 0xa1fd && Hi(9871869) == 0x96;
    hide Lo, Hi;
  }

  lemma MarkAcross()
    ensures MarkAt(EndRecord(19280, 2622981, 9871869), END_MARK, 10)
  {
  }

  // ---- a directory that is full -----------------------------------------

  const FULL: seq<Entry> := Repeat(BRICK, 0xffff)

  /** With 65535 entries the archive opens, and the walk over it ends with an error. */
  lemma FullDirectory()
    ensures Small(FULL) && (forall e :: e in FULL ==> Readback(e)) && Search64(Archive(FULL)) == INVALID
    ensures NoStrayMark(FULL) && FindEnd(Archive(FULL)) == EndOf(FULL)
    ensures Acceptable(EndOf(FULL)) && Next(Archive(FULL), EndOf(FULL), SeenAt(FULL, 0xfffe)).0 == BadZipFile
  {
    Bricks(0xffff);
    BrickRow(0xffff);
    FullReadback();
    FullEnd();
    FullNumbers();
    assert |FULL| == 0xffff;
    hide FULL, Locals, Directory, NoPair, NoPairFields, EndFields, Archive, Search64, Readback, FindEnd, EndRecord,
      Next, SeenAt;
    ArchiveNoLocator(FULL);
    ArchiveOpens(FULL);
    EndsWithError(FULL);
  }

  lemma FullReadback()
    ensures (forall e :: e in FULL ==> Readback(e)) && AllRecoverable(FULL)
  {
    BrickSizes();
  }

  lemma EndsWithError(es: seq<Entry>)
    requires |es| == 0xffff && Small(es) && forall e :: e in es ==> Readback(e)
    ensures Acceptable(EndOf(es)) && Next(Archive(es), EndOf(es), SeenAt(es, 0xfffe)).0 == BadZipFile
  {
    hide Archive, Locals, Directory, Readback, Seen, Next, SeenAt, EndOf;
    RebuiltReads(es);
  }

  lemma FullEnd()
    ensures NoPairFields(EndFields(0xffff, 8912760, 33553920))
  {
    assert Lo(8912760) == 0xff78 && Hi(8912760) == 0x87 && Lo(33553920) == 0xfe00 && Hi(33553920) == 0x1ff;
    hide Lo, Hi;
  }

  lemma FullNumbers()
    ensures NoMark(EndRecord(0xffff, 8912760, 33553920), END_MARK, 1, END_SIZE)
  {
    assert Lo(8912760) == 0xff78 && Hi(8912760) == 0x87 && Lo(33553920) == 0xfe00 && Hi(33553920) == 0x1ff;
    hide Lo, Hi;
    var rec := EndRecord(0xffff, 8912760, 33553920);
    assert forall i :: 1 <= i < END_SIZE ==> rec[i] != 0x50;
  }

  // ---- records that the end of the file cuts ----------------------------

  /** Five bytes are an archive without entries, four bytes are a central header, and four are a local
      header that agrees with it. */
  lemma CutRecords()
    ensures FindEnd([0, 0x50, 0x4b, 0x05, 0x06]) == End(0, 0, 0, 1)
    ensures ParseHeader([0x50, 0x4b, 0x01, 0x02], 0) == Header(UnzOk, NO_INFO, NO_BIG)
    ensures Coherent([0x50, 0x4b, 0x03, 0x04], 0, NO_INFO, NO_BIG)
  {
    CutEnd();
    var d: seq<byte> := [0x50, 0x4b, 0x01, 0x02];
    assert Long(d, 0) == CENTRAL_SIG && FixedInfo(d, 0) == NO_INFO && FixedBig(d, 0) == NO_BIG;
    assert Extras(d, 0) == Parse(ExtraAt(d, 0), NO_BIG);
    var c: seq<byte> := [0x50, 0x4b, 0x03, 0x04];
    assert Long(c, 0) == LOCAL_SIG;
  }

  lemma CutEnd()
    ensures FindEnd([0, 0x50, 0x4b, 0x05, 0x06]) == End(0, 0, 0, 1)
  {
    var d: seq<byte> := [0, 0x50, 0x4b, 0x05, 0x06];
    assert NoPair(d);
    NoLocator(d);
    hide Search64;
    assert MarkAt(d, END_MARK, 1);
    LastMarkIs(d, END_MARK, 1);
    assert ReadEnd(d, 1) == End(0, 0, 0, 1);
  }
}
