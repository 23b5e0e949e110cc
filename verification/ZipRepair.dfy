/** unzRepair() of ThirdParty/Minizip/mztools.c: copy the local entries that can be read from the
    front of a file and give them a new central directory.

    Call number k of malloc() succeeds exactly when `mem(k)`. */
module ZipRepair {
  import opened Numbers
  import opened ZipFormat

  datatype RepairError = Errno | StreamError | MemError

  datatype Repaired = Failed(error: RepairError) | Repaired(archive: seq<byte>, recovered: nat, bytes: nat)

  /** How many bytes of data are copied: none when the size does not fit an int. */
  function DataSize(csize: nat, usize: nat): nat
    requires csize < K64 * K64 && usize < K64 * K64
  {
    var size := if AsInt(csize) == 0 then AsInt(usize) else AsInt(csize);
    if size > 0 then size else 0
  }

  /** As much data as the sizes say: the compressed size counts, the other one when it is 0, and neither
      when it does not fit an int. */
  predicate DataFits(e: Entry)
  {
    && (0 < e.csize < 0x8000_0000 ==> |e.data| == e.csize)
    && (e.csize == 0 && e.usize < 0x8000_0000 ==> |e.data| == e.usize)
    && (e.csize >= 0x8000_0000 || (e.csize == 0 && e.usize >= 0x8000_0000) ==> e.data == [])
  }

  /** What can come out of repairing: a name of 1 to 1023 bytes, fewer than 1024 bytes of extra
      field, and as much data as the sizes say. */
  predicate Recoverable(e: Entry)
  {
    Fits(e) && 1 <= |e.name| < 1024 && |e.extra| < 1024 && DataFits(e)
  }

  datatype Recovered = Broken(error: RepairError) | Entries(entries: seq<Entry>)

  datatype Found = Stop | Bad(error: RepairError) | Good(entry: Entry)

  function NameSize(d: seq<byte>, p: nat): nat
    requires p + LOCAL_SIZE <= |d|
  {
    U16(d, p + 26)
  }

  function ExtraSize(d: seq<byte>, p: nat): nat
    requires p + LOCAL_SIZE <= |d|
  {
    U16(d, p + 28)
  }

  function StoredSize(d: seq<byte>, p: nat): nat
    requires p + LOCAL_SIZE <= |d|
  {
    DataSize(U32(d, p + 18), U32(d, p + 22))
  }

  /** The entry whose local header lies at `p`, when the file is long enough for all of it. */
  function EntryAt(d: seq<byte>, p: nat): Entry
    requires p + LOCAL_SIZE <= |d| && p + LOCAL_SIZE + NameSize(d, p) + ExtraSize(d, p) + StoredSize(d, p) <= |d|
  {
    var n := p + LOCAL_SIZE;
    var x := n + NameSize(d, p);
    var s := x + ExtraSize(d, p);
    Entry(U16(d, p + 4), U16(d, p + 6), U16(d, p + 8), U16(d, p + 10), U16(d, p + 12),
          U32(d, p + 14), U32(d, p + 18), U32(d, p + 22), d[n..x], d[x..s], d[s..s + StoredSize(d, p)])
  }

  /** What the loop body finds at `p`; `mem` says whether a malloc() for the data succeeds. */
  function NextEntry(d: seq<byte>, p: nat, mem: bool): (r: Found)
  {
    if p + LOCAL_SIZE > |d| || U32(d, p) != LOCAL_SIG then Stop
    else
      var left := |d| - p - LOCAL_SIZE;
      var fn, ex, size := NameSize(d, p), ExtraSize(d, p), StoredSize(d, p);
      if fn == 0 then Bad(StreamError)
      else if fn >= 1024 || left < fn then Bad(Errno)
      else if ex > 0 && (ex >= 1024 || left < fn + ex) then Bad(Errno)
      else if size > 0 && !mem then Bad(MemError)
      else if size > 0 && left < fn + ex + size then Bad(Errno)
      else Good(EntryAt(d, p))
  }

  function TotalData(es: seq<Entry>): nat
  {
    if es == [] then 0 else TotalData(es[..|es| - 1]) + |es[|es| - 1].data|
  }

  /** The number of entries as the end record can hold it. */
  function Announced(es: seq<Entry>): nat
  {
    if |es| > 0xffff then 0xffff else |es|
  }

  /** The rebuilt file: the local entries, their directory, and the end record. */
  function Archive(es: seq<Entry>): seq<byte>
  {
    Locals(es) + Directory(es) + EndRecord(Announced(es), |Directory(es)|, |Locals(es)|)
  }

  /** One malloc() for an entry with data. */
  function Mallocs(e: Entry): nat
  {
    if e.data == [] then 0 else 1
  }

  /** The loop from `p` on, after `calls` calls of malloc(): the entries it takes, or the error. */
  function RecoverFrom(d: seq<byte>, p: nat, es: seq<Entry>, mem: nat -> bool, calls: nat): Recovered
    decreases |d| - p
  {
    match NextEntry(d, p, mem(calls))
    case Stop => Entries(es)
    case Bad(error) => Broken(error)
    case Good(e) => RecoverFrom(d, p + LOCAL_SIZE + |e.name| + |e.extra| + |e.data|, es + [e], mem, calls + Mallocs(e))
  }

  function Recover(d: seq<byte>, mem: nat -> bool): Recovered
  {
    RecoverFrom(d, 0, [], mem, 0)
  }

  /** unzRepair() as a whole. */
  function Repair(d: seq<byte>, mem: nat -> bool): Repaired
  {
    match Recover(d, mem)
    case Broken(error) => Failed(error)
    case Entries(es) => Repaired(Archive(es), |es|, TotalData(es))
  }

  lemma SameRow(xs: seq<nat>, d: seq<byte>, p: nat)
    requires |xs| == 15 && p + 30 <= |d|
    requires xs[0] == U16(d, p) && xs[1] == U16(d, p + 2) && xs[2] == U16(d, p + 4) && xs[3] == U16(d, p + 6)
    requires xs[4] == U16(d, p + 8) && xs[5] == U16(d, p + 10) && xs[6] == U16(d, p + 12) && xs[7] == U16(d, p + 14)
    requires xs[8] == U16(d, p + 16) && xs[9] == U16(d, p + 18) && xs[10] == U16(d, p + 20)
    requires xs[11] == U16(d, p + 22) && xs[12] == U16(d, p + 24) && xs[13] == U16(d, p + 26)
             && xs[14] == U16(d, p + 28)
    ensures xs == Row(d, p, 15)
  {
  }

  /** The header row of the entry at `p` is in the file. */
  lemma RowFound(d: seq<byte>, p: nat)
    requires p + LOCAL_SIZE <= |d| && U32(d, p) == LOCAL_SIG
    requires p + LOCAL_SIZE + NameSize(d, p) + ExtraSize(d, p) + StoredSize(d, p) <= |d|
    ensures LiesAt(Shorts(LocalFields(EntryAt(d, p))), d, p)
  {
    SplitU32(d, p);
    SplitU32(d, p + 14);
    SplitU32(d, p + 18);
    SplitU32(d, p + 22);
    hide Shorts, LiesAt, Lo, Hi;
    SameRow(LocalFields(EntryAt(d, p)), d, p);
    RowLies(d, p, 15);
  }

  /** A found entry is recoverable, and its bytes are the ones in the file. */
  lemma FoundEntry(d: seq<byte>, p: nat, mem: bool)
    requires NextEntry(d, p, mem).Good?
    ensures Recoverable(NextEntry(d, p, mem).entry) && LiesAt(Local(NextEntry(d, p, mem).entry), d, p)
  {
    hide EntryAt, LocalFields, Shorts, U16, U32, LiesAt, NextEntry, Recoverable, NameSize, ExtraSize, StoredSize;
    GoodIsEntry(d, p, mem);
    RowFound(d, p);
    FieldsFound(d, p);
    var e := EntryAt(d, p);
    FourParts(Shorts(LocalFields(e)), e.name, e.extra, e.data, d, p);
  }

  lemma GoodIsEntry(d: seq<byte>, p: nat, mem: bool)
    requires NextEntry(d, p, mem).Good?
    ensures p + LOCAL_SIZE <= |d| && U32(d, p) == LOCAL_SIG
    ensures p + LOCAL_SIZE + NameSize(d, p) + ExtraSize(d, p) + StoredSize(d, p) <= |d|
    ensures NextEntry(d, p, mem).entry == EntryAt(d, p) && Recoverable(EntryAt(d, p))
  {
  }

  lemma FieldsFound(d: seq<byte>, p: nat)
    requires p + LOCAL_SIZE <= |d| && p + LOCAL_SIZE + NameSize(d, p) + ExtraSize(d, p) + StoredSize(d, p) <= |d|
    ensures var e := EntryAt(d, p); var n := p + LOCAL_SIZE;
      && LiesAt(e.name, d, n) && LiesAt(e.extra, d, n + |e.name|) && LiesAt(e.data, d, n + |e.name| + |e.extra|)
      && 2 * |LocalFields(e)| == LOCAL_SIZE
  {
  }

  lemma FourParts(a: seq<byte>, b: seq<byte>, c: seq<byte>, e: seq<byte>, d: seq<byte>, p: nat)
    requires LiesAt(a, d, p) && LiesAt(b, d, p + |a|) && LiesAt(c, d, p + |a| + |b|)
             && LiesAt(e, d, p + |a| + |b| + |c|)
    ensures LiesAt(a + b + c + e, d, p)
  {
    LiesConcat(a, b, d, p);
    LiesConcat(a + b, c, d, p);
    LiesConcat(a + b + c, e, d, p);
  }

  /** One entry more at the front of the file. */
  lemma FrontGrows(d: seq<byte>, p: nat, es: seq<Entry>, e: Entry)
    requires p <= |d| && Locals(es) == d[..p] && LiesAt(Local(e), d, p)
    ensures p + |Local(e)| <= |d| && Locals(es + [e]) == d[..p + |Local(e)|]
  {
    assert (es + [e])[..|es|] == es;
    assert d[..p] + d[p..p + |Local(e)|] == d[..p + |Local(e)|];
  }

  /** The reading half of the loop body: header, name, extra field, data. */
  method ReadEntry(input: seq<byte>, pos: nat, mem: nat -> bool, calls0: nat) returns (r: Found, calls: nat)
    requires pos + LOCAL_SIZE <= |input| && U32(input, pos) == LOCAL_SIG
    ensures r == NextEntry(input, pos, mem(calls0)) && !r.Stop?
    ensures r.Good? ==> calls == calls0 + Mallocs(r.entry)
  {
    calls := calls0;
    var fnsize, extsize := NameSize(input, pos), ExtraSize(input, pos);
    var name := pos + LOCAL_SIZE;
    if fnsize == 0 {
      return Bad(StreamError), calls;
    }
    if fnsize >= 1024 || name + fnsize > |input| {
      return Bad(Errno), calls;
    }
    var extra := name + fnsize;
    if extsize > 0 && (extsize >= 1024 || extra + extsize > |input|) {
      return Bad(Errno), calls;
    }
    var data := extra + extsize;
    var dataSize := DataSize(U32(input, pos + 18), U32(input, pos + 22));
    if dataSize > 0 {
      var granted := mem(calls);
      calls := calls + 1;
      if !granted {
        return Bad(MemError), calls;
      }
      if data + dataSize > |input| {
        return Bad(Errno), calls;
      }
    }
    r := Good(EntryAt(input, pos));
  }

  lemma OneMore(es: seq<Entry>, e: Entry)
    ensures Locals(es + [e]) == Locals(es) + Local(e)
    ensures Directory(es + [e]) == Directory(es) + Central(e, |Locals(es)|)
    ensures TotalData(es + [e]) == TotalData(es) + |e.data|
  {
    assert (es + [e])[..|es|] == es;
  }

  lemma NothingYet()
    ensures Locals([]) == [] && Directory([]) == [] && TotalData([]) == 0
  {
  }

  lemma StopsAt(d: seq<byte>, p: nat, mem: bool)
    requires p + LOCAL_SIZE > |d| || U32(d, p) != LOCAL_SIG
    ensures NextEntry(d, p, mem).Stop?
  {
  }

  /** unzRepair(). */
  method UnzRepair(input: seq<byte>, mem: nat -> bool) returns (r: Repaired)
    ensures r == Repair(input, mem)
  {
    hide EntryAt, LocalFields, Recoverable, DataSize, Mallocs, NextEntry, Locals, Directory, TotalData, Shorts;
    var out, cd: seq<byte> := [], [];
    NothingYet();
    var entries, totalBytes, offset, offsetCD, pos, calls := 0, 0, 0, 0, 0, 0;
    ghost var es: seq<Entry> := [];
    while pos + LOCAL_SIZE <= |input|
      invariant pos == offset == |out| && out == Locals(es)
      invariant cd == Directory(es) && offsetCD == |cd|
      invariant entries == |es| && totalBytes == TotalData(es)
      invariant Recover(input, mem) == RecoverFrom(input, pos, es, mem, calls)
      decreases |input| - pos
    {
      if U32(input, pos) != LOCAL_SIG {
        break;
      }
      var currentOffset := offset;
      var next;
      ghost var granted := mem(calls);
      next, calls := ReadEntry(input, pos, mem, calls);
      if next.Bad? {
        return Failed(next.error);
      }
      var e := next.entry;
      FoundEntry(input, pos, granted);
      OneMore(es, e);
      var size := LOCAL_SIZE + |e.name| + |e.extra| + |e.data|;
      out := out + input[pos..pos + size];
      cd := cd + Shorts(CentralFields(e, currentOffset)) + e.name + e.extra;
      assert cd == Directory(es) + Central(e, currentOffset);
      offsetCD := offsetCD + CENTRAL_SIZE + |e.name| + |e.extra|;
      offset, pos := offset + size, pos + size;
      totalBytes := totalBytes + |e.data|;
      entries := entries + 1;
      es := es + [e];
    }
    StopsAt(input, pos, mem(calls));
    var entriesZip := if entries > 0xffff then 0xffff else entries;
    r := Repaired(out + cd + EndRecord(entriesZip, offsetCD, offset), entries, totalBytes);
  }

  lemma StopsAlike(d: seq<byte>, p: nat, mem: bool)
    ensures NextEntry(d, p, mem).Stop? <==> NextEntry(d, p, true).Stop?
  {
  }

  /** The entries are recoverable ones, they stand at the front of the file byte for byte, and no
      further one follows. */
  ghost predicate Kept(d: seq<byte>, es: seq<Entry>)
  {
    (forall e :: e in es ==> Recoverable(e)) && Locals(es) <= d && NextEntry(d, |Locals(es)|, true).Stop?
  }

  lemma {:induction false} RecoverKeepsEntries(d: seq<byte>, p: nat, es: seq<Entry>, mem: nat -> bool, calls: nat,
                                               all: seq<Entry>)
    requires RecoverFrom(d, p, es, mem, calls) == Entries(all) && p <= |d| && Locals(es) == d[..p]
    requires forall e :: e in es ==> Recoverable(e)
    ensures Kept(d, all)
    decreases |d| - p
  {
    hide NextEntry, EntryAt, Locals, LiesAt, Recoverable, Mallocs, Shorts, LocalFields;
    var next := NextEntry(d, p, mem(calls));
    if next.Stop? {
      StopsAlike(d, p, mem(calls));
      assert |Locals(es)| == p;
    } else {
      var e := next.entry;
      FoundEntry(d, p, mem(calls));
      FrontGrows(d, p, es, e);
      RecoverKeepsEntries(d, p + |Local(e)|, es + [e], mem, calls + Mallocs(e), all);
    }
  }

  /** Whatever the damaged file is: when repairing succeeds, the archive consists of the
      recoverable entries at the front of the file, byte for byte, with a directory for them. */
  lemma RepairKeepsEntries(d: seq<byte>, mem: nat -> bool)
    requires Recover(d, mem).Entries?
    ensures var es := Recover(d, mem).entries;
      Repair(d, mem) == Repaired(Archive(es), |es|, TotalData(es)) && Kept(d, es)
  {
    RecoverKeepsEntries(d, 0, [], mem, 0, Recover(d, mem).entries);
  }

  // ---- what is recovered ------------------------------------------------

  lemma EntryIs(e: Entry, d: seq<byte>, p: nat)
    requires Recoverable(e) && LiesAt(Local(e), d, p)
    ensures p + LOCAL_SIZE + |e.name| + |e.extra| + |e.data| <= |d| && U32(d, p) == LOCAL_SIG
    ensures NameSize(d, p) == |e.name| && ExtraSize(d, p) == |e.extra| && StoredSize(d, p) == |e.data|
    ensures EntryAt(d, p) == e
  {
    RecoverableFits(e);
    hide *;
    LocalParts(e, d, p);
    LocalRow(e, d, p);
    SizeIs(e);
    SlicesAre(e, d, p);
    SizesAre(e, d, p);
    FieldsAre(e, d, p);
  }

  lemma RecoverableFits(e: Entry)
    requires Recoverable(e)
    ensures Fits(e) && DataFits(e) && LOCAL_SIG == 0x04034b50
  {
  }

  lemma SizesAre(e: Entry, d: seq<byte>, p: nat)
    requires p + LOCAL_SIZE <= |d| && U32(d, p + 18) == e.csize && U32(d, p + 22) == e.usize
    requires U16(d, p + 26) == |e.name| && U16(d, p + 28) == |e.extra|
    ensures NameSize(d, p) == |e.name| && ExtraSize(d, p) == |e.extra|
    ensures e.csize < K64 * K64 && e.usize < K64 * K64 && StoredSize(d, p) == DataSize(e.csize, e.usize)
  {
    hide DataSize, U16, U32;
  }

  lemma FieldsAre(e: Entry, d: seq<byte>, p: nat)
    requires p + LOCAL_SIZE + |e.name| + |e.extra| + |e.data| <= |d|
    requires NameSize(d, p) == |e.name| && ExtraSize(d, p) == |e.extra| && StoredSize(d, p) == |e.data|
    requires U16(d, p + 4) == e.version && U16(d, p + 6) == e.flag && U16(d, p + 8) == e.method_
    requires U16(d, p + 10) == e.time && U16(d, p + 12) == e.date && U32(d, p + 14) == e.crc
    requires U32(d, p + 18) == e.csize && U32(d, p + 22) == e.usize
    requires var n := p + LOCAL_SIZE; var x := n + |e.name|; var s := x + |e.extra|;
      d[n..x] == e.name && d[x..s] == e.extra && d[s..s + |e.data|] == e.data
    ensures EntryAt(d, p) == e
  {
    hide NameSize, ExtraSize, StoredSize, U16, U32;
  }

  lemma SlicesAre(e: Entry, d: seq<byte>, p: nat)
    requires LiesAt(e.name, d, p + LOCAL_SIZE) && LiesAt(e.extra, d, p + LOCAL_SIZE + |e.name|)
    requires LiesAt(e.data, d, p + LOCAL_SIZE + |e.name| + |e.extra|)
    ensures var n := p + LOCAL_SIZE; var x := n + |e.name|; var s := x + |e.extra|;
      s + |e.data| <= |d| && d[n..x] == e.name && d[x..s] == e.extra && d[s..s + |e.data|] == e.data
  {
  }

  lemma SizeIs(e: Entry)
    requires Fits(e) && DataFits(e)
    ensures DataSize(e.csize, e.usize) == |e.data|
  {
  }

  /** Every recoverable entry that lies in the file is taken, as it is, if there is memory for its data. */
  lemma TakesEntry(e: Entry, d: seq<byte>, p: nat, mem: bool)
    requires Recoverable(e) && LiesAt(Local(e), d, p)
    ensures NextEntry(d, p, mem) == if mem || e.data == [] then Good(e) else Bad(MemError)
  {
    EntryIs(e, d, p);
    hide LiesAt, Local, EntryAt, NameSize, ExtraSize, StoredSize, U32;
  }

  /** Why an entry is not taken. */
  lemma EntryErrors(d: seq<byte>, p: nat, mem: bool)
    requires NextEntry(d, p, mem).Bad?
    ensures NextEntry(d, p, mem).error == StreamError <==> U16(d, p + 26) == 0
    ensures NextEntry(d, p, mem).error == MemError ==> !mem
    ensures forall e :: Recoverable(e) && LiesAt(Local(e), d, p) ==> NextEntry(d, p, mem).error == MemError
  {
    forall e | Recoverable(e) && LiesAt(Local(e), d, p)
      ensures NextEntry(d, p, mem).error == MemError
    {
      TakesEntry(e, d, p, true);
    }
  }

  lemma {:induction false} LocalLies(es: seq<Entry>, d: seq<byte>, i: nat)
    requires LiesAt(Locals(es), d, 0) && i < |es|
    ensures LiesAt(Local(es[i]), d, |Locals(es[..i])|)
    decreases |es|
  {
    var n := |es| - 1;
    LiesConcat(Locals(es[..n]), Local(es[n]), d, 0);
    if i < n {
      LocalLies(es[..n], d, i);
      assert es[..n][..i] == es[..i];
    }
  }

  /** How many entries have data. */
  function WithData(es: seq<Entry>): nat
  {
    if es == [] then 0 else WithData(es[1..]) + if es[0].data == [] then 0 else 1
  }

  /** The next `n` requests for memory are granted. */
  predicate GrantsNext(mem: nat -> bool, from: nat, n: nat)
  {
    forall k: nat :: from <= k < from + n ==> mem(k)
  }

  /** What one entry more needs. */
  lemma OneMoreNeeded(es: seq<Entry>, i: nat, mem: nat -> bool, calls: nat)
    requires i < |es|
    ensures es[i].data != [] && !mem(calls) ==> !GrantsNext(mem, calls, WithData(es[i..]))
    ensures es[i].data == [] || mem(calls) ==>
      (GrantsNext(mem, calls, WithData(es[i..])) <==>
        GrantsNext(mem, calls + Mallocs(es[i]), WithData(es[i + 1..])))
  {
    assert es[i..][1..] == es[i + 1..];
  }

  lemma StepTaken(d: seq<byte>, p: nat, es: seq<Entry>, mem: nat -> bool, calls: nat, e: Entry)
    requires NextEntry(d, p, mem(calls)) == if mem(calls) || e.data == [] then Good(e) else Bad(MemError)
    ensures RecoverFrom(d, p, es, mem, calls) ==
            if mem(calls) || e.data == []
            then RecoverFrom(d, p + |Local(e)|, es + [e], mem, calls + Mallocs(e)) else Broken(MemError)
  {
    hide NextEntry, Mallocs;
    LocalSize(e);
  }

  lemma {:induction false} TakesFrom(es: seq<Entry>, i: nat, d: seq<byte>, mem: nat -> bool, calls: nat)
    requires i <= |es| && forall e :: e in es ==> Recoverable(e)
    requires LiesAt(Locals(es), d, 0) && NextEntry(d, |Locals(es)|, true).Stop?
    ensures RecoverFrom(d, |Locals(es[..i])|, es[..i], mem, calls) ==
            if GrantsNext(mem, calls, WithData(es[i..])) then Entries(es) else Broken(MemError)
    decreases |es| - i
  {
    hide *;
    if i == |es| {
      assert es[..i] == es && es[i..] == [];
      NothingLeft(es, d, mem, calls);
    } else {
      LocalLies(es, d, i);
      assert es[i] in es;
      TakesEntry(es[i], d, |Locals(es[..i])|, mem(calls));
      StepTaken(d, |Locals(es[..i])|, es[..i], mem, calls, es[i]);
      OneMoreNeeded(es, i, mem, calls);
      OneMore(es[..i], es[i]);
      assert es[..i] + [es[i]] == es[..i + 1];
      TakesFrom(es, i + 1, d, mem, calls + Mallocs(es[i]));
    }
  }

  lemma NothingLeft(es: seq<Entry>, d: seq<byte>, mem: nat -> bool, calls: nat)
    requires NextEntry(d, |Locals(es)|, true).Stop?
    ensures RecoverFrom(d, |Locals(es)|, es, mem, calls) == Entries(es) && GrantsNext(mem, calls, WithData([]))
  {
    StopsAlike(d, |Locals(es)|, mem(calls));
    hide NextEntry, Locals;
  }

  lemma LocalSize(e: Entry)
    ensures |Local(e)| == LOCAL_SIZE + |e.name| + |e.extra| + |e.data|
  {
  }

  /** Whatever recoverable entries stand at the front of a file, and whatever follows that is not
      another header: they are recovered, all of them, if and only if memory is granted once for
      each entry with data, and otherwise none is. */
  lemma RepairTakesAll(es: seq<Entry>, tail: seq<byte>, mem: nat -> bool)
    requires forall e :: e in es ==> Recoverable(e)
    requires |tail| < 30 || U32(tail, 0) != 0x04034b50
    ensures Recover(Locals(es) + tail, mem) ==
            if GrantsNext(mem, 0, WithData(es)) then Entries(es) else Broken(MemError)
  {
    var d := Locals(es) + tail;
    assert es[..0] == [] && es[0..] == es && d[0..|Locals(es)|] == Locals(es);
    NothingYet();
    if |tail| >= 30 {
      TailFollows(Locals(es), tail);
    }
    TakesFrom(es, 0, d, mem, 0);
  }

  lemma TailFollows(a: seq<byte>, tail: seq<byte>)
    requires |tail| >= 4
    ensures U32(a + tail, |a|) == U32(tail, 0)
  {
  }

  /** Repairing a repaired archive changes nothing. */
  lemma RepairTwice(es: seq<Entry>, mem: nat -> bool)
    requires (forall e :: e in es ==> Recoverable(e)) && (forall k :: mem(k))
    ensures Repair(Archive(es), mem) == Repaired(Archive(es), |es|, TotalData(es))
  {
    hide Directory, Locals, EndRecord, Recover, Recoverable, U32;
    var rec := EndRecord(Announced(es), |Directory(es)|, |Locals(es)|);
    assert Archive(es) == Locals(es) + (Directory(es) + rec);
    NoHeaderFollows(es, rec);
    RepairTakesAll(es, Directory(es) + rec, mem);
  }

  lemma NoHeaderFollows(es: seq<Entry>, rec: seq<byte>)
    requires rec == EndRecord(Announced(es), |Directory(es)|, |Locals(es)|)
    ensures var tail := Directory(es) + rec; |tail| < 30 || U32(tail, 0) != 0x04034b50
  {
    hide Directory, Locals, EndRecord;
    DirectoryStarts(es);
    EndStarts(Announced(es), |Directory(es)|, |Locals(es)|);
    var tail := Directory(es) + rec;
    assert |tail| >= 3 && tail[2] != 0x03;
  }

  lemma {:induction false} DirectoryStarts(es: seq<Entry>)
    ensures var r := Directory(es); es != [] ==> |r| >= 3 && r[0] == 0x50 && r[1] == 0x4b && r[2] == 0x01
    ensures es == [] ==> Directory(es) == []
  {
    if es != [] {
      DirectoryStarts(es[..|es| - 1]);
    }
  }

  lemma EndStarts(n: nat, size: nat, offset: nat)
    ensures var r := EndRecord(n, size, offset); |r| >= 3 && r[0] == 0x50 && r[1] == 0x4b && r[2] == 0x05
  {
  }

  /** What is counted as recovered are the bytes of data, apart from headers, names and extra fields. */
  lemma {:induction false} TotalIs(es: seq<Entry>)
    ensures |Directory(es)| + TotalData(es) == |Locals(es)| + 16 * |es|
  {
    if es != [] {
      TotalIs(es[..|es| - 1]);
    }
  }
}
