/** Reading an entry: unzOpenCurrentFile3, unzReadCurrentFile for stored and raw entries, and
    unzCloseCurrentFile of ThirdParty/Minizip/unzip.c.  crc32() is the fold of an arbitrary step. */
module ZipRead {
  import opened Numbers
  import opened ZipFormat
  import opened ZipInfo
  import opened ZipNames
  import opened ZipReader
  import opened ZipCrypt

  const UNZ_BUFSIZE: nat := 16384
  const UNZ_ERRNO: int := -1

  type Step = (word32, byte) -> word32

  /** crc32(). */
  function Crc32(step: Step, crc: word32, bytes: seq<byte>): word32
    decreases |bytes|
  {
    if bytes == [] then crc else Crc32(step, step(crc, bytes[0]), bytes[1..])
  }

  lemma {:induction false} Crc32Concat(step: Step, crc: word32, a: seq<byte>, b: seq<byte>)
    ensures Crc32(step, crc, a + b) == Crc32(step, Crc32(step, crc, a), b)
    decreases |a|
  {
    if a == [] {
      assert a + b == b;
    } else {
      Crc32Concat(step, step(crc, a[0]), a[1..], b);
      assert (a + b)[1..] == a[1..] + b;
    }
  }

  /** The bytes of the file from `at` on, as far as there are `n` of them. */
  function Tail(d: seq<byte>, at: nat, n: nat): (r: seq<byte>)
    ensures |r| <= n && (at + n <= |d| ==> |r| == n) && (at <= |d| ==> |r| == Min(n, |d| - at))
  {
    d[Min(at, |d|)..Min(at + n, |d|)]
  }

  lemma TailSplit(d: seq<byte>, at: nat, n: nat, m: nat)
    requires m <= n && at + m <= |d|
    ensures Tail(d, at, n) == d[at..at + m] + Tail(d, at + m, n - m)
  {
  }

  /** The bytes behind `at` as the caller is to get them. */
  function Opened(d: seq<byte>, at: nat, n: nat, encrypted: bool, tab: Table, k: Keys): (r: seq<byte>)
    ensures |r| == |Tail(d, at, n)|
  {
    if encrypted then Decode(Code(tab), k, Tail(d, at, n)) else Tail(d, at, n)
  }

  /** The keys after a refill of plain bytes. */
  function KeysAfter(encrypted: bool, tab: Table, k: Keys, plain: seq<byte>): Keys
  {
    if encrypted then Absorb(Code(tab), k, plain) else k
  }

  /** One refill: its bytes come first, and the rest follows with the keys it leaves. */
  lemma RefillSplits(d: seq<byte>, at: nat, n: nat, m: nat, encrypted: bool, tab: Table, k: Keys, got: seq<byte>)
    requires m <= n && at + m <= |d|
    requires got == if encrypted then Decode(Code(tab), k, d[at..at + m]) else d[at..at + m]
    ensures Opened(d, at, n, encrypted, tab, k) ==
            got + Opened(d, at + m, n - m, encrypted, tab, KeysAfter(encrypted, tab, k, got))
  {
    TailSplit(d, at, n, m);
    if encrypted {
      DecodeConcat(Code(tab), k, d[at..at + m], Tail(d, at + m, n - m));
    }
  }

  lemma ModMinus(x: int, n: nat)
    ensures (x % TWO64 - n) % TWO64 == (x - n) % TWO64
  {
  }

  lemma TakeMore(s: seq<byte>, n: nat, m: nat)
    requires n + m <= |s|
    ensures s[..n + m] == s[..n] + s[n..][..m] && s[n + m..] == s[n..][m..]
  {
  }

  lemma OnePartMore(buf: array<byte>, n: nat, m: nat)
    requires n + m <= buf.Length
    ensures buf[..n + m] == buf[..n] + buf[n..n + m]
  {
  }

  /** An open entry (file_in_zip64_read_info_s) that is stored or read raw, with the decryption
      keys of its archive. */
  class Reader {
    const s: Stream
    const raw: bool
    const wait: word32
    const step: Step
    const tab: Table
    const buffer: array<byte>
    const pkeys: array<word64>
    ghost const csize: nat
    ghost const usize: nat
    var encrypted: bool
    var pos: word64    // pos_in_zipfile with byte_before_the_zipfile added
    var restC: nat
    var restU: word64
    var nextIn: nat
    var availIn: nat
    var crc: word32
    var total: nat
    ghost var delivered: seq<byte>
    ghost var content: seq<byte>

    /** What is not read from the file yet. */
    ghost function Unread(): seq<byte>
      requires pkeys.Length == 3
      reads this`encrypted, this`pos, this`restC, pkeys
    {
      Opened(s.data, pos, restC, encrypted, tab, KeysOf(pkeys))
    }

    /** What the caller has not got yet. */
    ghost function Undelivered(): seq<byte>
      requires pkeys.Length == 3 && nextIn + availIn <= buffer.Length
      reads this`encrypted, this`pos, this`restC, this`nextIn, this`availIn, pkeys, buffer
    {
      buffer[nextIn..nextIn + availIn] + Unread()
    }

    ghost predicate Shape()
      reads this`nextIn, this`availIn
    {
      pkeys.Length == 3 && buffer.Length == UNZ_BUFSIZE && nextIn + availIn <= buffer.Length
    }

    /** The counters account for every byte, and what was delivered is the front of the content. */
    ghost predicate Valid()
      reads this, pkeys, buffer
    {
      Shape() && Counted() && delivered + Undelivered() == content
    }

    ghost predicate Counted()
      reads this
    {
      && csize < TWO64 && usize < TWO64
      && total == |delivered| && total + availIn + restC == csize
      && restU == (usize - total) % TWO64 && (!raw ==> total <= usize)
      && crc == Crc32(step, 0, delivered)
    }

    /** The file is long enough for all bytes that the counters announce. */
    predicate Complete()
      reads this`pos, this`restC
    {
      pos + restC <= |s.data|
    }

    constructor (s: Stream, pos: word64, csize: nat, usize: nat, wait: word32, raw: bool, step: Step, tab: Table)
      requires csize < TWO64 && usize < TWO64
      ensures Valid() && fresh(buffer) && fresh(pkeys) && this.s == s && this.raw == raw
      ensures this.wait == wait && this.step == step && this.tab == tab && this.csize == csize && this.usize == usize
      ensures !encrypted && this.pos == pos && restC == csize && restU == usize && availIn == 0 && delivered == []
      ensures content == Tail(s.data, pos, csize)
    {
      this.s, this.raw, this.wait, this.step, this.tab := s, raw, wait, step, tab;
      this.csize, this.usize := csize, usize;
      this.buffer := new byte[UNZ_BUFSIZE];
      this.pkeys := new word64[3];
      this.encrypted, this.pos, this.restC, this.restU := false, pos, csize, usize;
      this.nextIn, this.availIn, this.crc, this.total := 0, 0, 0, 0;
      this.delivered, this.content := [], Tail(s.data, pos, csize);
    }

    /** After the encryption header was read into the keys. */
    method StartEncrypted()
      requires Valid() && !encrypted && availIn == 0 && delivered == [] && pos + HEAD <= |s.data|
      modifies this`pos, this`encrypted, this`content
      ensures Valid() && encrypted && pos == old(pos) + HEAD && delivered == []
      ensures content == Opened(s.data, old(pos) + HEAD, restC, true, tab, KeysOf(pkeys))
    {
      hide Decode, Absorb, Tail, Crc32;
      pos, encrypted := pos + HEAD, true;
      content := Undelivered();
    }

    /** Nothing is delivered yet, and `all` is going to be. */
    ghost predicate Starts(all: seq<byte>)
      reads this, pkeys, buffer
    {
      Valid() && delivered == [] && content == all
    }

    /** All that this reader is going to deliver is delivered. */
    ghost predicate Finished()
      requires pkeys.Length == 3 && nextIn + availIn <= buffer.Length
      reads this, pkeys, buffer
    {
      Undelivered() == [] || (!raw && restU == 0)
    }

    lemma FinishedMeans()
      requires Valid() && Finished()
      ensures delivered == content[..if raw then |content| else Min(usize, |content|)]
    {
      AllRead(usize, total);
    }

    /** The inner loop of a refill. */
    method Decrypt(n: nat)
      requires pkeys.Length == 3 && n <= buffer.Length
      modifies buffer, pkeys
      ensures buffer[..n] == Decode(Code(tab), old(KeysOf(pkeys)), old(buffer[..n]))
      ensures KeysOf(pkeys) == Absorb(Code(tab), old(KeysOf(pkeys)), buffer[..n])
    {
      hide Code, XorByte, Decode, Absorb;
      ghost var k, c := KeysOf(pkeys), buffer[..n];
      NothingYet(Code(tab), k);
      var i := 0;
      while i < n
        invariant i <= n && buffer[i..n] == c[i..]
        invariant buffer[..i] == Decode(Code(tab), k, c[..i]) && KeysOf(pkeys) == Absorb(Code(tab), k, buffer[..i])
      {
        ghost var done := buffer[..i];
        var p := ZDecode(pkeys, tab, buffer[i]);
        OneMore(Code(tab), k, c, i, p);
        buffer[i] := p;
        assert buffer[..i + 1] == done + [p];
        i := i + 1;
      }
      assert c[..n] == c;
    }

    /** Read `n` bytes into the buffer and decrypt them. */
    method ReadPart(n: nat) returns (ok: bool)
      requires pkeys.Length == 3 && n <= buffer.Length
      modifies s, buffer, pkeys
      ensures ok <==> pos + n <= |s.data|
      ensures ok ==> buffer[..n] == (if encrypted then Decode(Code(tab), old(KeysOf(pkeys)), s.data[pos..pos + n])
                                     else s.data[pos..pos + n])
      ensures KeysOf(pkeys) == if ok then KeysAfter(encrypted, tab, old(KeysOf(pkeys)), buffer[..n])
              else old(KeysOf(pkeys))
    {
      hide Decode, Absorb, Code;
      ok := s.Seek(pos);
      if ok {
        ok := s.Read(buffer, n);
      }
      if ok && encrypted {
        Decrypt(n);
      }
    }

    /** Move `n` bytes of the entry into the buffer. */
    method TakePart(n: nat) returns (ok: bool)
      requires pkeys.Length == 3 && n <= buffer.Length && n <= restC
      modifies s, buffer, pkeys, this`pos, this`restC
      ensures ok ==> old(Unread()) == buffer[..n] + Unread() && restC == old(restC) - n && pos == old(pos) + n
      ensures !ok ==> old(Unread()) == Unread() && restC == old(restC) && pos == old(pos) && pos + n > |s.data|
    {
      hide Decode, Absorb, Tail;
      ghost var k, at, rest := KeysOf(pkeys), pos, restC;
      ok := ReadPart(n);
      if ok {
        ghost var got := buffer[..n];
        RefillSplits(s.data, at, rest, n, encrypted, tab, k, got);
        pos := pos + n;
        restC := restC - n;
        assert KeysOf(pkeys) == KeysAfter(encrypted, tab, k, got);
        assert buffer[..n] == got;
      }
    }

    /** Read the next part of the entry into the empty buffer. */
    method Refill() returns (ok: bool)
      requires Shape() && availIn == 0 && restC > 0
      modifies s, buffer, pkeys, this`pos, this`restC, this`nextIn, this`availIn
      ensures Shape() && Undelivered() == old(Undelivered()) && availIn + restC == old(restC)
              && (old(Counted()) ==> Counted())
      ensures ok ==> availIn > 0 && (old(Complete()) <==> Complete())
      ensures !ok ==> !Complete() && availIn == 0 && pos == old(pos)
    {
      hide Opened, Crc32;
      var readThis := UNZ_BUFSIZE;
      if restC < readThis {
        readThis := restC;
      }
      assert Undelivered() == Unread();
      ok := TakePart(readThis);
      if ok {
        nextIn, availIn := 0, readThis;
        assert buffer[nextIn..nextIn + availIn] == buffer[..readThis];
      } else {
        assert Undelivered() == Unread();
      }
    }

    method CopyBytes(buf: array<byte>, at: nat, n: nat)
      requires Shape() && n <= availIn && at + n <= buf.Length && buf != buffer
      modifies buf
      ensures buf[at..at + n] == buffer[nextIn..nextIn + n]
      ensures forall i :: 0 <= i < buf.Length && !(at <= i < at + n) ==> buf[i] == old(buf[i])
    {
      var i := 0;
      while i < n
        modifies buf
        invariant i <= n && buf[at..at + i] == buffer[nextIn..nextIn + i]
        invariant forall j :: 0 <= j < buf.Length && !(at <= j < at + i) ==> buf[j] == old(buf[j])
      {
        buf[at + i] := buffer[nextIn + i];
        assert buf[at..at + i + 1] == buf[at..at + i] + [buf[at + i]];
        i := i + 1;
      }
    }

    /** Copy `n` bytes from the buffer to the caller and account for them. */
    method Deliver(buf: array<byte>, at: nat, n: nat)
      requires Shape() && Counted() && n <= availIn && at + n <= buf.Length && buf != buffer && (buf as object) != pkeys
      requires raw || n <= restU
      modifies buf, this`nextIn, this`availIn, this`crc, this`total, this`restU, this`delivered
      ensures Shape() && Counted() && availIn == old(availIn) - n && restU == (old(restU) - n) % TWO64
      ensures buf[at..at + n] == old(Undelivered())[..n] && Undelivered() == old(Undelivered())[n..]
      ensures delivered == old(delivered) + old(Undelivered())[..n]
      ensures forall i :: 0 <= i < buf.Length && !(at <= i < at + n) ==> buf[i] == old(buf[i])
    {
      hide Opened, Crc32;
      ghost var part := buffer[nextIn..nextIn + n];
      ghost var left := buffer[nextIn + n..nextIn + availIn];
      assert buffer[nextIn..nextIn + availIn] == part + left;
      assert Undelivered() == part + (left + Unread());
      CopyBytes(buf, at, n);
      Crc32Concat(step, 0, delivered, part);
      Account(buf, at, n);
    }

    method Account(buf: array<byte>, at: nat, n: nat)
      requires Shape() && Counted() && n <= availIn && at + n <= buf.Length && (raw || n <= restU)
      requires Crc32(step, 0, delivered + buf[at..at + n]) == Crc32(step, crc, buf[at..at + n])
      modifies this`nextIn, this`availIn, this`crc, this`total, this`restU, this`delivered
      ensures Shape() && Counted() && availIn == old(availIn) - n && restU == (old(restU) - n) % TWO64
      ensures delivered == old(delivered) + buf[at..at + n] && nextIn == old(nextIn) + n
    {
      ModMinus(usize - total, n);
      total := total + n;
      crc := Crc32(step, crc, buf[at..at + n]);
      restU := (restU - n) % TWO64;
      availIn := availIn - n;
      nextIn := nextIn + n;
      delivered := delivered + buf[at..at + n];
    }

    /** How many bytes the counters still announce. */
    function Left(): nat
      reads this`restC, this`restU, this`availIn
    {
      if raw then restC + availIn else restU
    }

    lemma LeftIs()
      requires Counted()
      ensures |delivered| <= (if raw then csize else usize) && Left() == (if raw then csize else usize) - |delivered|
    {
    }

    /** How much a call asks for once `len` is cut to what is left. */
    function Wanted(len: nat): nat
      reads this`restC, this`restU, this`availIn
    {
      Min(len, Left())
    }

    /** What is in the buffer is part of what is undelivered, and all of it when the file part is empty. */
    lemma InHand()
      requires Shape()
      ensures availIn <= |Undelivered()| && (availIn == 0 && restC == 0 ==> Undelivered() == [])
    {
    }

    /** One turn of the loop: refill the buffer if it is empty, and copy what is wanted of it. */
    method ReadOnce(buf: array<byte>, at: nat, availOut: nat) returns (ok: bool, n: nat)
      requires Shape() && Counted() && buf != buffer && (buf as object) != pkeys
      requires 0 < availOut && at + availOut <= buf.Length && (raw || availOut <= restU)
      modifies s, buf, buffer, pkeys, this`pos, this`restC, this`nextIn, this`availIn, this`crc, this`total,
               this`restU, this`delivered
      ensures Shape() && Counted() && (old(Complete()) ==> Complete()) && (!ok ==> n == 0 && !Complete())
      ensures n <= availOut && n <= |old(Undelivered())|
      ensures buf[at..at + n] == old(Undelivered())[..n] && Undelivered() == old(Undelivered())[n..]
      ensures delivered == old(delivered) + old(Undelivered())[..n] && restU == (old(restU) - n) % TWO64
      ensures restC <= old(restC) && (ok && n == 0 ==> Undelivered() == [])
      ensures buf[..at] == old(buf[..at])
      ensures forall i :: 0 <= i < buf.Length && !(at <= i < at + n) ==> buf[i] == old(buf[i])
    {
      hide Complete, Undelivered, Counted;
      n := 0;
      ok := true;
      if availIn == 0 && restC > 0 {
        ok := Refill();
        if !ok {
          return;
        }
      }
      InHand();
      if availIn == 0 && restC == 0 {
        return;
      }
      n := Min(availOut, availIn);
      Deliver(buf, at, n);
    }

    /** The loop. */
    method ReadLoop(buf: array<byte>, want: nat) returns (ok: bool, n: nat)
      requires Shape() && Counted() && want <= buf.Length && (raw || want <= restU) && buf != buffer
               && (buf as object) != pkeys
      modifies s, buf, buffer, pkeys, this`pos, this`restC, this`nextIn, this`availIn, this`crc, this`total,
               this`restU, this`delivered
      ensures Shape() && Counted() && (old(Complete()) ==> ok && Complete())
      ensures n <= want && n <= |old(Undelivered())| && (ok ==> n == Min(want, |old(Undelivered())|))
      ensures Undelivered() == old(Undelivered())[n..]
      ensures buf[..n] == old(Undelivered())[..n] && delivered == old(delivered) + old(Undelivered())[..n]
      ensures forall i :: n <= i < buf.Length ==> buf[i] == old(buf[i])
    {
      hide Undelivered, Counted, Complete;
      n, ok := 0, true;
      ghost var left := Undelivered();
      while n < want
        invariant ok && Shape() && Counted() && (old(Complete()) ==> Complete())
        invariant n <= want && (raw || want - n <= restU)
        invariant n <= |left| && Undelivered() == left[n..]
        invariant buf[..n] == left[..n] && delivered == old(delivered) + left[..n]
        invariant forall i :: n <= i < buf.Length ==> buf[i] == old(buf[i])
        decreases want - n
      {
        var doCopy;
        ok, doCopy := ReadOnce(buf, n, want - n);
        assert buf[..n] == left[..n];
        if !ok || doCopy == 0 {
          return;
        }
        TakeMore(left, n, doCopy);
        OnePartMore(buf, n, doCopy);
        n := n + doCopy;
      }
    }

    /** unzReadCurrentFile() for a stored entry or a raw read.  The call hands out the next bytes of
        the content, as many as are wanted and left, and returns their number as an int.  It fails
        only when the file is too short, and then `n` bytes are in the buffer without the caller
        being told. */
    method ReadCurrentFile(buf: array<byte>, len: nat) returns (r: int, ghost n: nat)
      requires Valid() && len <= buf.Length && len < TWO32 && buf != buffer && (buf as object) != pkeys
      modifies s, buf, buffer, pkeys, this`pos, this`restC, this`nextIn, this`availIn, this`crc, this`total,
               this`restU, this`delivered
      ensures Valid() && (old(Complete()) ==> Complete())
      ensures n <= len && n <= |old(Undelivered())| && buf[..n] == old(Undelivered())[..n]
      ensures delivered == old(delivered) + old(Undelivered())[..n]
      ensures || (r == AsInt(n) && n == Min(old(Wanted(len)), |old(Undelivered())|))
              || (r == UNZ_ERRNO && !old(Complete()))
      ensures r == 0 && len > 0 ==> Finished()
      ensures forall i :: n <= i < buf.Length ==> buf[i] == old(buf[i])
    {
      hide Opened, Crc32, Complete;
      n := 0;
      if len == 0 {
        return 0, 0;
      }
      var availOut := len;
      if len > restU && !raw {
        availOut := restU;
      }
      if len > restC + availIn && raw {
        availOut := restC + availIn;
      }
      var ok, iRead := ReadLoop(buf, availOut);
      n := iRead;
      r := if ok then AsInt(iRead) else UNZ_ERRNO;
    }

    /** unzCloseCurrentFile(): a CRC error exactly when all was read, not raw, and the CRC of the
        delivered bytes is not the expected one. */
    method CloseCurrentFile() returns (err: Err)
      requires Valid()
      ensures err == if !raw && |delivered| == usize && Crc32(step, 0, delivered) != wait then CrcError else UnzOk
    {
      AllRead(usize, total);
      err := UnzOk;
      if restU == 0 && !raw {
        if crc != wait {
          err := CrcError;
        }
      }
    }
  }

  lemma AllRead(usize: nat, total: nat)
    requires usize < TWO64
    ensures total <= usize ==> ((usize - total) % TWO64 == 0 <==> total == usize)
  {
  }

  // ---- opening an entry -------------------------------------------------

  /** Where the data of the entry at local header `p` starts. */
  function DataAt(d: seq<byte>, p: nat): nat
  {
    p + LOCAL_SIZE + LocalNameSize(d, p) + LocalExtraSize(d, p)
  }

  /** The keys behind the 12-byte encryption header at `at`. */
  function HeadKeys(d: seq<byte>, at: nat, tab: Table, password: seq<byte>): Keys
    requires at + HEAD <= |d|
  {
    var k := Absorb(Code(tab), START, CStr(password));
    Absorb(Code(tab), k, Decode(Code(tab), k, d[at..at + HEAD]))
  }

  /** What the reads of an entry are going to deliver. */
  function Content(d: seq<byte>, at: nat, csize: nat, hasPassword: bool, tab: Table, password: seq<byte>): seq<byte>
    requires hasPassword ==> at + HEAD <= |d|
  {
    if hasPassword then Opened(d, at + HEAD, csize, true, tab, HeadKeys(d, at, tab, password)) else Tail(d, at, csize)
  }

  method DecodeHead(s: Stream, pkeys: array<word64>, tab: Table, password: seq<byte>, at: word64) returns (ok: bool)
    requires pkeys.Length == 3
    modifies s, pkeys
    ensures ok == (at + HEAD <= |s.data|)
    ensures ok ==> KeysOf(pkeys) == HeadKeys(s.data, at, tab, password)
  {
    hide Code, XorByte, Decode, Absorb;
    var source := new byte[HEAD];
    InitKeys(password, pkeys, tab);
    ghost var k := KeysOf(pkeys);
    ok := s.Seek(at);
    if ok {
      ok := s.Read(source, HEAD);
    }
    if !ok {
      return;
    }
    ghost var c := source[..];
    assert c == s.data[at..at + HEAD];
    NothingYet(Code(tab), k);
    for i := 0 to HEAD
      invariant KeysOf(pkeys) == Absorb(Code(tab), k, Decode(Code(tab), k, c[..i]))
      invariant forall j :: i <= j < HEAD ==> source[j] == c[j]
    {
      var p := ZDecode(pkeys, tab, source[i]);
      OneMore(Code(tab), k, c, i, p);
      source[i] := p;
    }
    assert c[..HEAD] == c;
  }

  /** A reader for the data at `pos`, and the encryption header when there is a password. */
  method NewReader(s: Stream, pos: word64, csize: nat, usize: nat, wait: word32, raw: bool,
                   hasPassword: bool, password: seq<byte>, step: Step, tab: Table)
    returns (ok: bool, r: Reader)
    requires csize < TWO64 && usize < TWO64
    modifies s
    ensures ok <==> !hasPassword || pos + HEAD <= |s.data|
    ensures fresh(r) && fresh(r.buffer) && fresh(r.pkeys) && r.s == s && r.raw == raw && r.step == step && r.tab == tab
    ensures r.wait == wait && r.csize == csize && r.usize == usize
    ensures ok ==> r.Starts(Content(s.data, pos, csize, hasPassword, tab, password))
    ensures ok ==> (r.Complete() <==> pos + csize + (if hasPassword then HEAD else 0) <= |s.data|)
  {
    hide HeadKeys, Reader.Counted, Decode, Tail;
    r := new Reader(s, pos, csize, usize, wait, raw, step, tab);
    ok := true;
    if hasPassword {
      ok := DecodeHead(s, r.pkeys, tab, password, pos);
      if ok {
        r.StartEncrypted();
      }
    }
  }

  lemma CoherentInside(d: seq<byte>, p: nat, info: Info, big: Big)
    requires Coherent(d, p, info, big)
    ensures p + 4 <= |d| && LocalNameSize(d, p) < K64 && LocalExtraSize(d, p) < K64
  {
  }

  /** unzOpenCurrentFile3() on the current file of an archive. */
  method OpenCurrentFile(u: UnzFile, raw: bool, hasPassword: bool, password: seq<byte>, step: Step, tab: Table)
    returns (err: Err, r: Reader?)
    requires u.Open() && u.cur.big.csize < TWO64 && u.cur.big.usize < TWO64 && u.cur.info.crc < TWO32
    requires u.cur.info.method_ == 0 || raw
    modifies u.s
    ensures var p := u.LocalPlace();
      err == if !u.cur.ok then ParamError
             else if !Coherent(u.s.data, p, u.cur.info, u.cur.big) then BadZipFile
             else if hasPassword && DataAt(u.s.data, p) + HEAD > |u.s.data| then InternalError
             else UnzOk
    ensures err == UnzOk ==>
      && r != null && fresh(r) && fresh(r.buffer) && fresh(r.pkeys) && r.s == u.s
      && r.raw == raw && r.step == step && r.tab == tab && r.wait == u.cur.info.crc
      && r.csize == u.cur.big.csize && r.usize == u.cur.big.usize
    ensures err == UnzOk ==>
      var at := DataAt(u.s.data, u.LocalPlace());
      && r.Starts(Content(u.s.data, at, r.csize, hasPassword, tab, password))
      && (r.Complete() <==> at + r.csize + (if hasPassword then HEAD else 0) <= |u.s.data|)
  {
    hide Coherent, Content, Reader.Starts, Reader.Complete;
    r := null;
    if !u.cur.ok {
      return ParamError, null;
    }
    var sizeVar, extraAt, extraSize;
    err, sizeVar, extraAt, extraSize := u.CheckCoherency();
    if err != UnzOk {
      return BadZipFile, null;
    }
    var ok;
    CoherentInside(u.s.data, u.LocalPlace(), u.cur.info, u.cur.big);
    PlaceMore(u.cur.big.offset + Before(u.end), LOCAL_SIZE + sizeVar);
    var at := Place(u.cur.big.offset + LOCAL_SIZE + sizeVar + Before(u.end));
    ok, r := NewReader(u.s, at, u.cur.big.csize, u.cur.big.usize,
                       u.cur.info.crc, raw, hasPassword, password, step, tab);
    if !ok {
      err := InternalError;
    }
  }

  // ---- whole entries ----------------------------------------------------

  /** The loop of do_extract_currentfile() in miniunz.c: whatever the size of the buffer, the output
      is the content up to the announced size. */
  method Extract(r: Reader, bufSize: nat) returns (err: Err, out: seq<byte>)
    requires r.Valid() && r.delivered == [] && 1 <= bufSize < 0x8000_0000
    modifies r.s, r, r.buffer, r.pkeys
    ensures out <= old(r.content)
    ensures old(r.Complete()) ==>
              && out == old(r.content)[..if r.raw then |old(r.content)| else Min(r.usize, |old(r.content)|)]
              && err == if !r.raw && |out| == r.usize && Crc32(r.step, 0, out) != r.wait then CrcError else UnzOk
  {
    hide Opened, Crc32, Reader.Complete, Reader.Counted, Reader.Finished;
    var buf := new byte[bufSize];
    out := [];
    ghost var all := r.content;
    var n: int;
    ghost var m;
    n, m := r.ReadCurrentFile(buf, bufSize);
    while n > 0
      invariant r.Valid() && r.content == all && fresh(buf) && (old(r.Complete()) ==> r.Complete())
      invariant n >= 0 ==> n == m <= bufSize && r.delivered == out + buf[..n]
      invariant n < 0 ==> !old(r.Complete()) && out <= r.delivered
      invariant n == 0 ==> r.Finished()
      decreases |all| - |out|, n > 0
    {
      out := out + buf[..n];
      n, m := r.ReadCurrentFile(buf, bufSize);
    }
    if n < 0 {
      return UnzErrno, out;
    }
    r.FinishedMeans();
    err := r.CloseCurrentFile();
  }

  /** What calls with these lengths hand out, call by call, when `rest` is undelivered and `left`
      more bytes are announced. */
  function Handouts(rest: seq<byte>, left: nat, lens: seq<nat>): seq<seq<byte>>
    decreases |lens|
  {
    if lens == [] then [] else
      var n := Min(Min(lens[0], left), |rest|);
      [rest[..n]] + Handouts(rest[n..], left - n, lens[1..])
  }

  function Sum(lens: seq<nat>): nat
    decreases |lens|
  {
    if lens == [] then 0 else lens[0] + Sum(lens[1..])
  }

  function Joined(parts: seq<seq<byte>>): seq<byte>
    decreases |parts|
  {
    if parts == [] then [] else parts[0] + Joined(parts[1..])
  }

  /** However the reads are cut, together they give the front of the content: the delivered bytes
      depend on the sum of the lengths only. */
  lemma {:induction false} AnyReads(rest: seq<byte>, left: nat, lens: seq<nat>)
    ensures Joined(Handouts(rest, left, lens)) == rest[..Min(Min(Sum(lens), left), |rest|)]
    decreases |lens|
  {
    if lens != [] {
      var n := Min(Min(lens[0], left), |rest|);
      var parts := Handouts(rest[n..], left - n, lens[1..]);
      AnyReads(rest[n..], left - n, lens[1..]);
      assert Handouts(rest, left, lens)[1..] == parts;
      var m := Min(Min(Sum(lens[1..]), left - n), |rest| - n);
      TakeMore(rest, n, m);
      if n < lens[0] {
        assert m == 0;
      }
    }
  }

  /** Lengths that a caller with this buffer can pass. */
  predicate Lengths(lens: seq<nat>, buf: array<byte>)
  {
    forall n :: n in lens ==> n <= buf.Length && n < 0x8000_0000
  }

  lemma RestIs(d: seq<byte>, u: seq<byte>, n: nat, v: seq<byte>)
    requires n <= |u| && d + u == d + u[..n] + v
    ensures v == u[n..]
  {
    assert v == (d + u[..n] + v)[|d| + n..] == (d + u)[|d| + n..];
  }

  /** One call of ReadCurrentFile on a complete file. */
  method ReadPiece(r: Reader, buf: array<byte>, len: nat) returns (part: seq<byte>)
    requires r.Valid() && r.Complete() && len <= buf.Length && len < 0x8000_0000 && buf != r.buffer
             && (buf as object) != r.pkeys
    modifies r.s, r, buf, r.buffer, r.pkeys
    ensures r.Valid() && r.Complete() && r.content == old(r.content)
    ensures var n := Min(Min(len, old(r.Left())), |old(r.Undelivered())|);
      part == old(r.Undelivered())[..n] && r.Undelivered() == old(r.Undelivered())[n..] && r.Left() == old(r.Left()) - n
  {
    hide Reader.Undelivered, Reader.Counted, Reader.Complete, Reader.Left, Reader.Finished;
    ghost var d, u := r.delivered, r.Undelivered();
    r.LeftIs();
    var n: int;
    ghost var m;
    n, m := r.ReadCurrentFile(buf, len);
    part := buf[..n];
    r.LeftIs();
    RestIs(d, u, n, r.Undelivered());
  }

  /** Calls of unzReadCurrentFile() with these lengths, one after the other: each hands out what the
      ones before it left, and together they give the front of what was undelivered. */
  method ReadPieces(r: Reader, buf: array<byte>, lens: seq<nat>) returns (parts: seq<seq<byte>>)
    requires r.Valid() && r.Complete() && Lengths(lens, buf) && buf != r.buffer && (buf as object) != r.pkeys
    modifies r.s, r, buf, r.buffer, r.pkeys
    ensures r.Valid() && r.Complete()
    ensures parts == Handouts(old(r.Undelivered()), old(r.Left()), lens)
    ensures Joined(parts) == old(r.Undelivered())[..Min(Min(Sum(lens), old(r.Left())), |old(r.Undelivered())|)]
    decreases |lens|
  {
    hide Reader.Counted, Reader.Undelivered, Reader.Complete, Reader.Left, Joined, Sum;
    AnyReads(r.Undelivered(), r.Left(), lens);
    if lens == [] {
      return [];
    }
    assert lens[0] in lens && forall n :: n in lens[1..] ==> n in lens;
    var part := ReadPiece(r, buf, lens[0]);
    var others := ReadPieces(r, buf, lens[1..]);
    parts := [part] + others;
  }

  // ---- encrypted entries ------------------------------------------------

  /** An entry that was written with the same password, behind a 12-byte header: the reader gets its
      plain bytes.  The code takes the 12 header bytes off its position but not off the number of
      bytes still to be read, so 12 bytes from behind the entry follow: a read that is not raw
      stops before them, a raw read delivers them too. */
  lemma EncryptedEntry(d: seq<byte>, at: nat, csize: nat, tab: Table, password: seq<byte>, head: seq<byte>,
                       plain: seq<byte>)
    requires |head| == HEAD && csize == HEAD + |plain|
    requires LiesAt(Encode(Code(tab), Absorb(Code(tab), START, CStr(password)), head + plain), d, at)
    ensures var c := Content(d, at, csize, true, tab, password);
      && plain <= c && |c| == Min(csize, |d| - at - HEAD)
      && (at + HEAD + csize <= |d| ==> |c| == |plain| + HEAD)
  {
    hide Opened;
    var k := Absorb(Code(tab), START, CStr(password));
    HeadRead(d, at, tab, password, head, plain);
    FrontDecodes(d, at + HEAD, csize, tab, Absorb(Code(tab), k, head), plain);
  }

  /** The current file of the archive was written with this password: behind its local header lie
      the 12 bytes of its encryption header and its data, encoded, and 12 bytes more. */
  ghost predicate Sealed(u: UnzFile, tab: Table, password: seq<byte>, head: seq<byte>, plain: seq<byte>)
    reads u
  {
    && u.Open() && u.cur.ok && Coherent(u.s.data, u.LocalPlace(), u.cur.info, u.cur.big)
    && u.cur.info.crc < TWO32 && u.cur.big.csize == HEAD + |plain| < TWO64 && u.cur.big.usize == |plain|
       && |head| == HEAD
    && var at := DataAt(u.s.data, u.LocalPlace());
       LiesAt(Encode(Code(tab), Absorb(Code(tab), START, CStr(password)), head + plain), u.s.data, at)
       && at + HEAD + u.cur.big.csize <= |u.s.data|
  }

  /** Opening an encrypted entry with its password and reading all of it: the plain bytes, and an
      error exactly when their CRC is not the announced one.  A raw read delivers 12 bytes from
      behind the entry after the plain ones. */
  method ExtractWithPassword(u: UnzFile, raw: bool, password: seq<byte>, ghost head: seq<byte>, ghost plain: seq<byte>,
                             bufSize: nat, step: Step, tab: Table)
    returns (err: Err, out: seq<byte>)
    requires Sealed(u, tab, password, head, plain) && (u.cur.info.method_ == 0 || raw) && 1 <= bufSize < 0x8000_0000
    modifies u.s
    ensures !raw ==> out == plain && err == if Crc32(step, 0, plain) != u.cur.info.crc then CrcError else UnzOk
    ensures raw ==> plain <= out && |out| == |plain| + HEAD && err == UnzOk
  {
    hide Coherent, Content, Reader.Complete, Crc32, Encode, Absorb, LiesAt, CStr, DataAt, Code;
    ghost var at := DataAt(u.s.data, u.LocalPlace());
    EncryptedEntry(u.s.data, at, u.cur.big.csize, tab, password, head, plain);
    var r;
    err, r := OpenCurrentFile(u, raw, true, password, step, tab);
    err, out := Extract(r, bufSize);
  }

  lemma HeadRead(d: seq<byte>, at: nat, tab: Table, password: seq<byte>, head: seq<byte>, plain: seq<byte>)
    requires |head| == HEAD
    requires LiesAt(Encode(Code(tab), Absorb(Code(tab), START, CStr(password)), head + plain), d, at)
    ensures at + HEAD + |plain| <= |d|
    ensures var k := Absorb(Code(tab), Absorb(Code(tab), START, CStr(password)), head);
      HeadKeys(d, at, tab, password) == k && LiesAt(Encode(Code(tab), k, plain), d, at + HEAD)
  {
    hide Code, XorByte, Decode, Encode, Absorb, CStr, HeadKeys, LiesAt;
    var k := Absorb(Code(tab), START, CStr(password));
    EncodeConcat(Code(tab), k, head, plain);
    LiesConcat(Encode(Code(tab), k, head), Encode(Code(tab), Absorb(Code(tab), k, head), plain), d, at);
    LiesBefore(Encode(Code(tab), Absorb(Code(tab), k, head), plain), d, at + HEAD);
    HeadKeysAre(d, at, tab, password, head);
  }

  lemma LiesBefore(x: seq<byte>, d: seq<byte>, at: nat)
    requires LiesAt(x, d, at)
    ensures at + |x| <= |d| && d[at..at + |x|] == x
  {
  }

  lemma HeadKeysAre(d: seq<byte>, at: nat, tab: Table, password: seq<byte>, head: seq<byte>)
    requires |head| == HEAD && at + HEAD <= |d|
    requires LiesAt(Encode(Code(tab), Absorb(Code(tab), START, CStr(password)), head), d, at)
    ensures HeadKeys(d, at, tab, password) == Absorb(Code(tab), Absorb(Code(tab), START, CStr(password)), head)
  {
    hide Code, XorByte, Decode, Encode, Absorb, CStr, LiesAt;
    var k := Absorb(Code(tab), START, CStr(password));
    LiesBefore(Encode(Code(tab), k, head), d, at);
    DecodeEncode(Code(tab), k, head);
  }

  lemma FrontDecodes(d: seq<byte>, at: nat, n: nat, tab: Table, k: Keys, plain: seq<byte>)
    requires |plain| <= n && LiesAt(Encode(Code(tab), k, plain), d, at)
    ensures plain <= Opened(d, at, n, true, tab, k) && |Opened(d, at, n, true, tab, k)| == Min(n, |d| - at)
  {
    hide Code, XorByte, Decode, Encode, Absorb, Tail, LiesAt;
    var e := Encode(Code(tab), k, plain);
    LiesBefore(e, d, at);
    TailSplit(d, at, n, |e|);
    FrontIs(Code(tab), k, plain, Tail(d, at + |e|, n - |e|));
  }

  lemma FrontIs<K>(c: Cipher<K>, k: K, plain: seq<byte>, more: seq<byte>)
    ensures plain <= Decode(c, k, Encode(c, k, plain) + more)
  {
    hide *;
    DecodeConcat(c, k, Encode(c, k, plain), more);
    DecodeEncode(c, k, plain);
  }
}
