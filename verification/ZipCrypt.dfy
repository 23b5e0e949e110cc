/** ThirdParty/Minizip/crypt.h on a 64-bit build: traditional PKWARE encryption (section 6.1 of
    APPNOTE.TXT) with three keys of type unsigned long that are never masked to 32 bits.

    Words are numbers; wrap-around and the bit operations are written out.  The contents of the
    CRC table are arbitrary. */
module ZipCrypt {
  import opened Numbers
  import opened ZipFormat
  import opened ZipNames

  const TWO24: nat := 0x100_0000
  const FACTOR: nat := 134775813

  type word32 = x: int | 0 <= x < 0x1_0000_0000
  type word64 = x: int | 0 <= x < 0x1_0000_0000_0000_0000

  /** pcrc_32_tab. */
  type Table = byte -> word32

  // ---- bit operations ---------------------------------------------------

  function Xor(a: nat, b: nat): nat
  {
    if a == 0 && b == 0 then 0 else (a + b) % 2 + 2 * Xor(a / 2, b / 2)
  }

  lemma {:induction false} XorBelow(a: nat, b: nat, n: nat)
    requires a < Pow2(n) && b < Pow2(n)
    ensures Xor(a, b) < Pow2(n)
    decreases n
  {
    if n > 0 {
      XorBelow(a / 2, b / 2, n - 1);
    }
  }

  lemma Halves(bit: nat, h: nat)
    requires bit < 2
    ensures (bit + 2 * h) % 2 == bit && (bit + 2 * h) / 2 == h
  {
  }

  lemma {:induction false} XorStep(a: nat, b: nat)
    ensures Xor(a, b) % 2 == (a + b) % 2 && Xor(a, b) / 2 == Xor(a / 2, b / 2)
  {
    var h := Xor(a / 2, b / 2);
    if a == 0 && b == 0 {
      assert h == 0;
    } else {
      Halves((a + b) % 2, h);
    }
  }

  lemma ParityTwice(a: nat, b: nat)
    ensures (a + (a + b) % 2) % 2 == b % 2
  {
  }

  lemma Parities(a: nat, x: nat, bit: nat)
    requires x % 2 == bit
    ensures (a + x) % 2 == (a + bit) % 2
  {
  }

  lemma SameHalves(x: nat, y: nat)
    requires x % 2 == y % 2 && x / 2 == y / 2
    ensures x == y
  {
  }

  lemma {:induction false} XorTwice(a: nat, b: nat)
    ensures Xor(a, Xor(a, b)) == b
    decreases a + b
  {
    if a > 0 || b > 0 {
      var x := Xor(a, b);
      XorTwice(a / 2, b / 2);
      XorStep(a, b);
      XorStep(a, x);
      ParityTwice(a, b);
      Parities(a, x, (a + b) % 2);
      SameHalves(Xor(a, x), b);
    }
  }

  lemma {:induction false} XorCommutes(a: nat, b: nat)
    ensures Xor(a, b) == Xor(b, a)
    decreases a + b
  {
    if a > 0 || b > 0 {
      XorCommutes(a / 2, b / 2);
    }
  }

  function XorByte(a: byte, b: byte): byte
  {
    WordSizes();
    XorBelow(a, b, 8);
    Xor(a, b)
  }

  /** x | 2 and x ^ 1. */
  function OrTwo(x: nat): nat
  {
    if x / 2 % 2 == 1 then x else x + 2
  }

  function FlipLowest(x: nat): nat
  {
    if x % 2 == 0 then x + 1 else x - 1
  }

  /** Bitwise "or". */
  function Or(a: nat, b: nat): nat
  {
    if a == 0 && b == 0 then 0 else (if a % 2 == 1 || b % 2 == 1 then 1 else 0) + 2 * Or(a / 2, b / 2)
  }

  function Bit(n: nat, i: nat): bool
  {
    if i == 0 then n % 2 == 1 else Bit(n / 2, i - 1)
  }

  /** The operations are the bitwise ones. */
  lemma {:induction false} XorBits(a: nat, b: nat, i: nat)
    ensures Bit(Xor(a, b), i) == (Bit(a, i) != Bit(b, i))
    decreases i
  {
    XorStep(a, b);
    ParityOfSum(a, b);
    hide Xor;
    if i > 0 {
      XorBits(a / 2, b / 2, i - 1);
    }
  }

  lemma ParityOfSum(a: nat, b: nat)
    ensures (a + b) % 2 == 1 <==> (a % 2 == 1) != (b % 2 == 1)
  {
  }

  lemma {:induction false} OrBits(a: nat, b: nat, i: nat)
    ensures Bit(Or(a, b), i) == (Bit(a, i) || Bit(b, i))
    decreases i
  {
    OrStep(a, b);
    if i > 0 {
      OrBits(a / 2, b / 2, i - 1);
    }
  }

  lemma OrStep(a: nat, b: nat)
    ensures Or(a, b) % 2 == (if a % 2 == 1 || b % 2 == 1 then 1 else 0) && Or(a, b) / 2 == Or(a / 2, b / 2)
  {
    var h := Or(a / 2, b / 2);
    if a == 0 && b == 0 {
      assert h == 0;
    } else {
      Halves(if a % 2 == 1 || b % 2 == 1 then 1 else 0, h);
    }
  }

  lemma {:induction false} OrNothing(a: nat)
    ensures Or(a, 0) == a && Xor(a, 0) == a
  {
    if a > 0 {
      OrNothing(a / 2);
    }
  }

  lemma OrTwoIs(x: nat)
    ensures OrTwo(x) == Or(x, 2)
  {
    var h := x / 2;
    OrNothing(h / 2);
    OrStep(h, 1);
    OrStep(x, 2);
    SameHalves(OrTwo(x) / 2, Or(h, 1));
    SameHalves(OrTwo(x), Or(x, 2));
  }

  lemma FlipLowestIs(x: nat)
    ensures FlipLowest(x) == Xor(x, 1)
  {
    OrNothing(x / 2);
    XorStep(x, 1);
    SameHalves(FlipLowest(x), Xor(x, 1));
  }

  // ---- stream ciphers fed with the plain text ---------------------------

  /** `stream` gives the next byte of the key stream, `feed` the keys after a plain byte. */
  datatype Cipher<!K> = Cipher(stream: K -> byte, feed: (K, byte) -> K)

  /** The keys after some plain bytes went through. */
  function Absorb<K>(c: Cipher<K>, k: K, plain: seq<byte>): K
    decreases |plain|
  {
    if plain == [] then k else Absorb(c, c.feed(k, plain[0]), plain[1..])
  }

  function Encode<K>(c: Cipher<K>, k: K, plain: seq<byte>): (r: seq<byte>)
    ensures |r| == |plain|
    decreases |plain|
  {
    if plain == [] then [] else
      [XorByte(c.stream(k), plain[0])] + Encode(c, c.feed(k, plain[0]), plain[1..])
  }

  function Decode<K>(c: Cipher<K>, k: K, cipher: seq<byte>): (r: seq<byte>)
    ensures |r| == |cipher|
    decreases |cipher|
  {
    if cipher == [] then [] else
      var p := XorByte(c.stream(k), cipher[0]);
      [p] + Decode(c, c.feed(k, p), cipher[1..])
  }

  lemma {:induction false} DecodeEncode<K>(c: Cipher<K>, k: K, plain: seq<byte>)
    ensures Decode(c, k, Encode(c, k, plain)) == plain
    decreases |plain|
  {
    if plain != [] {
      var e := Encode(c, k, plain);
      XorTwice(c.stream(k), plain[0]);
      DecodeEncode(c, c.feed(k, plain[0]), plain[1..]);
      assert e[1..] == Encode(c, c.feed(k, plain[0]), plain[1..]);
    }
  }

  lemma {:induction false} EncodeDecode<K>(c: Cipher<K>, k: K, cipher: seq<byte>)
    ensures Encode(c, k, Decode(c, k, cipher)) == cipher
    decreases |cipher|
  {
    if cipher != [] {
      var d := Decode(c, k, cipher);
      XorTwice(c.stream(k), cipher[0]);
      EncodeDecode(c, c.feed(k, d[0]), cipher[1..]);
      assert d[1..] == Decode(c, c.feed(k, d[0]), cipher[1..]);
    }
  }

  /** Decoding in two parts: the keys carry over. */
  lemma {:induction false} DecodeConcat<K>(c: Cipher<K>, k: K, a: seq<byte>, b: seq<byte>)
    ensures Decode(c, k, a + b) == Decode(c, k, a) + Decode(c, Absorb(c, k, Decode(c, k, a)), b)
    decreases |a|
  {
    if a == [] {
      assert a + b == b;
    } else {
      var p := XorByte(c.stream(k), a[0]);
      DecodeConcat(c, c.feed(k, p), a[1..], b);
      assert (a + b)[1..] == a[1..] + b;
      assert Decode(c, k, a)[1..] == Decode(c, c.feed(k, p), a[1..]);
    }
  }

  lemma {:induction false} EncodeConcat<K>(c: Cipher<K>, k: K, a: seq<byte>, b: seq<byte>)
    ensures Encode(c, k, a + b) == Encode(c, k, a) + Encode(c, Absorb(c, k, a), b)
    decreases |a|
  {
    if a == [] {
      assert a + b == b;
    } else {
      EncodeConcat(c, c.feed(k, a[0]), a[1..], b);
      assert (a + b)[1..] == a[1..] + b;
    }
  }

  lemma {:induction false} AbsorbConcat<K>(c: Cipher<K>, k: K, a: seq<byte>, b: seq<byte>)
    ensures Absorb(c, k, a + b) == Absorb(c, Absorb(c, k, a), b)
    decreases |a|
  {
    if a == [] {
      assert a + b == b;
    } else {
      AbsorbConcat(c, c.feed(k, a[0]), a[1..], b);
      assert (a + b)[1..] == a[1..] + b;
    }
  }

  lemma NothingYet<K>(c: Cipher<K>, k: K)
    ensures Decode(c, k, []) == [] && Absorb(c, k, []) == k
  {
  }

  /** One more byte decoded, with the keys that the bytes before it left. */
  lemma OneMore<K>(c: Cipher<K>, k: K, cipher: seq<byte>, i: nat, p: byte)
    requires i < |cipher| && [p] == Decode(c, Absorb(c, k, Decode(c, k, cipher[..i])), [cipher[i]])
    ensures Decode(c, k, cipher[..i + 1]) == Decode(c, k, cipher[..i]) + [p]
    ensures Absorb(c, k, Decode(c, k, cipher[..i + 1])) == Absorb(c, Absorb(c, k, Decode(c, k, cipher[..i])), [p])
  {
    hide *;
    DecodeConcat(c, k, cipher[..i], [cipher[i]]);
    assert cipher[..i + 1] == cipher[..i] + [cipher[i]];
    AbsorbConcat(c, k, Decode(c, k, cipher[..i]), [p]);
  }

  // ---- the definition with 32-bit keys ----------------------------------

  datatype Ref = Ref(key0: word32, key1: word32, key2: word32)

  const REF_START := Ref(305419896, 591751049, 878082192)

  function RefCrc(tab: Table, crc: word32, b: byte): word32
  {
    Xor(tab(XorByte(crc % 256, b)), crc / 256) % 0x1_0000_0000
  }

  /** update_keys of section 6.1.5. */
  function RefUpdate(tab: Table, r: Ref, b: byte): Ref
  {
    var key0 := RefCrc(tab, r.key0, b);
    var key1 := ((r.key1 + key0 % 256) * 134775813 + 1) % 0x1_0000_0000;
    Ref(key0, key1, RefCrc(tab, r.key2, key1 / 0x100_0000))
  }

  /** decrypt_byte of section 6.1.6: its local variable has 16 bits. */
  function RefStream(r: Ref): byte
  {
    var temp := Or(r.key2 % 0x1_0000, 2);
    temp * Xor(temp, 1) % 0x1_0000 / 256
  }

  function Definition(tab: Table): Cipher<Ref>
  {
    Cipher(RefStream, (r: Ref, b: byte) => RefUpdate(tab, r, b))
  }

  // ---- the code's arithmetic --------------------------------------------

  datatype Keys = Keys(k0: word64, k1: word64, k2: word64)

  const START := Keys(305419896, 591751049, 878082192)

  /** A plain char as an int: sign-extended. */
  function CharToInt(c: byte): int
  {
    if c < 128 then c else c - 256
  }

  /** The macro CRC32(c, b): of the int only the low byte counts, in two's complement. */
  function Crc(tab: Table, c: word64, b: int): word64
  {
    WordSizes();
    XorBelow(tab(XorByte(c % 256, b % 256)), c / 256, 64);
    Xor(tab(XorByte(c % 256, b % 256)), c / 256)
  }

  function NewK1(k1: word64, low: byte): word64
  {
    ((k1 + low) % TWO64 * FACTOR + 1) % TWO64
  }

  /** (int) (k1 >> 24). */
  function KeyShift(k1: word64): int
  {
    var s := k1 / TWO24 % TWO32;
    if s < 0x8000_0000 then s else s - TWO32
  }

  function Update(tab: Table, k: Keys, c: int): Keys
  {
    var k0 := Crc(tab, k.k0, c);
    var k1 := NewK1(k.k1, k0 % 256);
    Keys(k0, k1, Crc(tab, k.k2, KeyShift(k1)))
  }

  /** decrypt_byte(): the product is taken in 32 bits. */
  function StreamByte(k: Keys): byte
  {
    var temp := OrTwo(k.k2 % TWO32 % K64);
    temp * FlipLowest(temp) % TWO32 / 256 % 256
  }

  function Code(tab: Table): Cipher<Keys>
  {
    Cipher(StreamByte, (k: Keys, b: byte) => Update(tab, k, CharToInt(b)))
  }

  // ---- the unmasked keys compute the 32-bit cipher -----------------------

  /** Two keys stay below 2^32 by themselves; of the other one only the low half matters. */
  predicate Agrees(k: Keys, r: Ref)
  {
    k.k0 == r.key0 && k.k1 % TWO32 == r.key1 && k.k2 == r.key2
  }

  lemma CrcAgrees(tab: Table, c: word32, b: int)
    ensures Crc(tab, c, b) == RefCrc(tab, c, b % 256)
  {
    hide XorByte, Xor;
    WordSizes();
    XorBelow(tab(XorByte(c % 256, b % 256)), c / 256, 32);
  }

  /** The low half of the unmasked product is the 32-bit product. */
  lemma LowProduct(k1: word64, low: byte)
    ensures NewK1(k1, low) % TWO32 == ((k1 % TWO32 + low) * FACTOR + 1) % TWO32
  {
    var q, a := k1 / TWO32, k1 % TWO32;
    var wrapped := (k1 + low) / TWO64;
    assert (k1 + low) % TWO64 == a + low + TWO32 * (q - TWO32 * wrapped);
    var x := (a + low) * FACTOR + 1;
    assert (k1 + low) % TWO64 * FACTOR + 1 == x + TWO32 * ((q - TWO32 * wrapped) * FACTOR);
    SameLow(x, (q - TWO32 * wrapped) * FACTOR);
    HalfOf((k1 + low) % TWO64 * FACTOR + 1);
  }

  lemma SameLow(x: int, m: int)
    ensures (x + TWO32 * m) % TWO32 == x % TWO32
  {
  }

  lemma HalfOf(y: nat)
    ensures y % TWO64 % TWO32 == y % TWO32
  {
  }

  /** The byte that goes into the last key. */
  lemma ShiftAgrees(k1: word64)
    ensures KeyShift(k1) % 256 == k1 % TWO32 / TWO24
  {
    FourthByte(k1);
    var s := k1 / TWO24 % TWO32;
    assert (s - TWO32) % 256 == s % 256;
  }

  lemma FourthByte(n: nat)
    ensures n % TWO32 / TWO24 == n / TWO24 % TWO32 % 256
  {
    var hi, mid, low := n / TWO32, n % TWO32 / TWO24, n % TWO24;
    assert n == TWO24 * (mid + 256 * hi) + low;
    assert n / TWO24 == mid + 256 * hi;
  }

  lemma UpdateAgrees(tab: Table, k: Keys, r: Ref, c: int)
    requires Agrees(k, r)
    ensures Agrees(Update(tab, k, c), RefUpdate(tab, r, c % 256))
  {
    CrcAgrees(tab, r.key0, c);
    var k0 := Crc(tab, k.k0, c);
    LowProduct(k.k1, k0 % 256);
    var k1 := NewK1(k.k1, k0 % 256);
    ShiftAgrees(k1);
    CrcAgrees(tab, r.key2, KeyShift(k1));
  }

  lemma StreamAgrees(k: Keys, r: Ref)
    requires Agrees(k, r)
    ensures StreamByte(k) == RefStream(r)
  {
    hide OrTwo, FlipLowest, Or, Xor;
    assert k.k2 % TWO32 == r.key2;
    var temp := OrTwo(r.key2 % K64);
    OrTwoIs(r.key2 % K64);
    FlipLowestIs(temp);
    SecondByte(temp * FlipLowest(temp));
  }

  lemma SecondByte(y: nat)
    ensures y % TWO32 / 256 % 256 == y % K64 / 256
  {
    ByteTwo(y);
    ByteTwo(y % TWO32);
    assert y == y % TWO32 + K64 * (K64 * (y / TWO32));
    SameLowHalf(y % TWO32, K64 * (y / TWO32));
  }

  lemma SameLowHalf(x: nat, m: nat)
    ensures (x + K64 * m) % K64 == x % K64
  {
  }

  lemma ByteTwo(y: nat)
    ensures y / 256 % 256 == y % K64 / 256
  {
    var hi, mid, low := y / K64, y % K64 / 256, y % 256;
    assert y == 256 * (mid + 256 * hi) + low;
    assert y / 256 == mid + 256 * hi;
  }

  /** The two ciphers agree step by step. */
  ghost predicate Simulates(c: Cipher<Keys>, d: Cipher<Ref>)
  {
    && (forall k: Keys, r: Ref {:trigger c.stream(k), d.stream(r)} :: Agrees(k, r) ==> c.stream(k) == d.stream(r))
    && (forall k: Keys, r: Ref, b: byte {:trigger c.feed(k, b), d.feed(r, b)} :: Agrees(k, r) ==>
         Agrees(c.feed(k, b), d.feed(r, b)))
  }

  lemma CodeStreams(tab: Table, k: Keys, r: Ref)
    requires Agrees(k, r)
    ensures Code(tab).stream(k) == Definition(tab).stream(r)
  {
    StreamAgrees(k, r);
  }

  lemma CodeFeeds(tab: Table, k: Keys, r: Ref, b: byte)
    requires Agrees(k, r)
    ensures Agrees(Code(tab).feed(k, b), Definition(tab).feed(r, b))
  {
    hide Update, RefUpdate, Agrees;
    UpdateAgrees(tab, k, r, CharToInt(b));
    assert CharToInt(b) % 256 == b;
  }

  lemma CodeSimulates(tab: Table)
    ensures Simulates(Code(tab), Definition(tab))
  {
    var c, d := Code(tab), Definition(tab);
    forall k: Keys, r: Ref {:trigger c.stream(k), d.stream(r)} | Agrees(k, r)
      ensures c.stream(k) == d.stream(r)
    {
      CodeStreams(tab, k, r);
    }
    forall k: Keys, r: Ref, b: byte {:trigger c.feed(k, b), d.feed(r, b)} | Agrees(k, r)
      ensures Agrees(c.feed(k, b), d.feed(r, b))
    {
      CodeFeeds(tab, k, r, b);
    }
  }

  lemma {:induction false} AbsorbAgrees(c: Cipher<Keys>, d: Cipher<Ref>, k: Keys, r: Ref, plain: seq<byte>)
    requires Simulates(c, d) && Agrees(k, r)
    ensures Agrees(Absorb(c, k, plain), Absorb(d, r, plain))
    decreases |plain|
  {
    if plain != [] {
      AbsorbAgrees(c, d, c.feed(k, plain[0]), d.feed(r, plain[0]), plain[1..]);
    }
  }

  lemma {:induction false} DecodeAgrees(c: Cipher<Keys>, d: Cipher<Ref>, k: Keys, r: Ref, cipher: seq<byte>)
    requires Simulates(c, d) && Agrees(k, r)
    ensures Decode(c, k, cipher) == Decode(d, r, cipher)
    decreases |cipher|
  {
    if cipher != [] {
      var p := XorByte(c.stream(k), cipher[0]);
      DecodeAgrees(c, d, c.feed(k, p), d.feed(r, p), cipher[1..]);
    }
  }

  lemma {:induction false} EncodeAgrees(c: Cipher<Keys>, d: Cipher<Ref>, k: Keys, r: Ref, plain: seq<byte>)
    requires Simulates(c, d) && Agrees(k, r)
    ensures Encode(c, k, plain) == Encode(d, r, plain)
    decreases |plain|
  {
    if plain != [] {
      EncodeAgrees(c, d, c.feed(k, plain[0]), d.feed(r, plain[0]), plain[1..]);
    }
  }

  /** For every password and every input the unmasked 64-bit keys give the cipher of section 6.1. */
  lemma SameCipher(tab: Table, password: seq<byte>, input: seq<byte>)
    ensures Decode(Code(tab), Absorb(Code(tab), START, password), input)
         == Decode(Definition(tab), Absorb(Definition(tab), REF_START, password), input)
    ensures Encode(Code(tab), Absorb(Code(tab), START, password), input)
         == Encode(Definition(tab), Absorb(Definition(tab), REF_START, password), input)
  {
    var c, d := Code(tab), Definition(tab);
    CodeSimulates(tab);
    AbsorbAgrees(c, d, START, REF_START, password);
    DecodeAgrees(c, d, Absorb(c, START, password), Absorb(d, REF_START, password), input);
    EncodeAgrees(c, d, Absorb(c, START, password), Absorb(d, REF_START, password), input);
  }

  /** The first step of the keys, in numbers. */
  lemma FirstKeys(tab: Table, c: int)
    ensures Update(tab, START, c).k0 == Xor(tab(XorByte(305419896 % 256, c % 256)), 305419896 / 256)
    ensures Update(tab, START, c).k1 == (591751049 + Update(tab, START, c).k0 % 256) * 134775813 + 1
  {
    hide Crc;
    CrcIs(tab, c);
    NewK1Is(Crc(tab, START.k0, c) % 256);
  }

  lemma NewK1Is(low: byte)
    ensures NewK1(591751049, low) == (591751049 + low) * 134775813 + 1
  {
    assert (591751049 + low) * 134775813 + 1 < 0x1_0000_0000_0000_0000;
  }

  lemma CrcIs(tab: Table, c: int)
    ensures Crc(tab, START.k0, c) == Xor(tab(XorByte(305419896 % 256, c % 256)), 305419896 / 256)
  {
    hide Xor, XorByte;
  }

  /** The byte at place `i` is xored with the stream of the keys that absorbed the plain bytes before it. */
  lemma {:induction false} EncodeAt<K>(c: Cipher<K>, k: K, plain: seq<byte>, i: nat)
    requires i < |plain|
    ensures Encode(c, k, plain)[i] == XorByte(c.stream(Absorb(c, k, plain[..i])), plain[i])
    decreases i
  {
    if i > 0 {
      EncodeAt(c, c.feed(k, plain[0]), plain[1..], i - 1);
      assert plain[1..][..i - 1] == plain[..i][1..];
    }
  }

  /** The keys do leave 32 bits: with the first character, whatever it is. */
  lemma KeysOverflow(tab: Table, c: int)
    ensures Update(tab, START, c).k1 >= TWO32
  {
    hide Crc;
    assert (START.k1 + Crc(tab, START.k0, c) % 256) * FACTOR + 1 < TWO64;
  }

  // ---- the functions of crypt.h, which change pkeys in place --------------

  function KeysOf(pkeys: array<word64>): Keys
    requires pkeys.Length == 3
    reads pkeys
  {
    Keys(pkeys[0], pkeys[1], pkeys[2])
  }

  method UpdateKeys(pkeys: array<word64>, tab: Table, c: int) returns (r: int)
    requires pkeys.Length == 3
    modifies pkeys
    ensures KeysOf(pkeys) == Update(tab, old(KeysOf(pkeys)), c) && r == c
  {
    pkeys[0] := Crc(tab, pkeys[0], c);
    pkeys[1] := (pkeys[1] + pkeys[0] % 256) % TWO64;
    pkeys[1] := (pkeys[1] * FACTOR + 1) % TWO64;
    pkeys[2] := Crc(tab, pkeys[2], KeyShift(pkeys[1]));
    r := c;
  }

  /** One character more of the password. */
  lemma PasswordStep(tab: Table, k: Keys, passwd: seq<byte>, i: nat)
    requires i <= |passwd|
    ensures Absorb(Code(tab), k, CStr(passwd[i..])) ==
            if i == |passwd| || passwd[i] == 0 then k
            else Absorb(Code(tab), Update(tab, k, CharToInt(passwd[i])), CStr(passwd[i + 1..]))
  {
    assert i < |passwd| ==> passwd[i..][1..] == passwd[i + 1..];
  }

  /** `passwd` is read up to its NUL. */
  method InitKeys(passwd: seq<byte>, pkeys: array<word64>, tab: Table)
    requires pkeys.Length == 3
    modifies pkeys
    ensures KeysOf(pkeys) == Absorb(Code(tab), START, CStr(passwd))
  {
    pkeys[0], pkeys[1], pkeys[2] := 305419896, 591751049, 878082192;
    AbsorbPassword(passwd, pkeys, tab);
  }

  /** The loop of init_keys(). */
  method AbsorbPassword(passwd: seq<byte>, pkeys: array<word64>, tab: Table)
    requires pkeys.Length == 3
    modifies pkeys
    ensures KeysOf(pkeys) == Absorb(Code(tab), old(KeysOf(pkeys)), CStr(passwd))
  {
    hide *;
    var i := 0;
    assert passwd[0..] == passwd;
    while i < |passwd| && passwd[i] != 0
      invariant i <= |passwd|
      invariant Absorb(Code(tab), old(KeysOf(pkeys)), CStr(passwd)) ==
                Absorb(Code(tab), KeysOf(pkeys), CStr(passwd[i..]))
    {
      PasswordStep(tab, KeysOf(pkeys), passwd, i);
      var c := UpdateKeys(pkeys, tab, CharToInt(passwd[i]));
      i := i + 1;
    }
    PasswordStep(tab, KeysOf(pkeys), passwd, i);
  }

  /** Encrypting feeds the byte as an int, decrypting as a char. */
  lemma SameUpdate(tab: Table, k: Keys, c: byte)
    ensures Update(tab, k, CharToInt(c)) == Update(tab, k, c)
  {
    hide XorByte, Xor, NewK1, KeyShift;
    assert CharToInt(c) % 256 == c % 256;
  }

  lemma OneByte<K>(c: Cipher<K>, k: K, b: byte)
    ensures Encode(c, k, [b]) == [XorByte(c.stream(k), b)] && Absorb(c, k, [b]) == c.feed(k, b)
    ensures Decode(c, k, [b]) == [XorByte(c.stream(k), b)]
  {
  }

  method ZDecode(pkeys: array<word64>, tab: Table, c: byte) returns (p: byte)
    requires pkeys.Length == 3
    modifies pkeys
    ensures [p] == Decode(Code(tab), old(KeysOf(pkeys)), [c])
    ensures KeysOf(pkeys) == Absorb(Code(tab), old(KeysOf(pkeys)), [p])
  {
    XorCommutes(c, StreamByte(KeysOf(pkeys)));
    p := XorByte(c, StreamByte(KeysOf(pkeys)));
    OneByte(Code(tab), KeysOf(pkeys), c);
    OneByte(Code(tab), KeysOf(pkeys), p);
    var r := UpdateKeys(pkeys, tab, CharToInt(p));
  }

  method ZEncode(pkeys: array<word64>, tab: Table, c: byte) returns (e: byte)
    requires pkeys.Length == 3
    modifies pkeys
    ensures [e] == Encode(Code(tab), old(KeysOf(pkeys)), [c])
    ensures KeysOf(pkeys) == Absorb(Code(tab), old(KeysOf(pkeys)), [c])
  {
    var t := StreamByte(KeysOf(pkeys));
    SameUpdate(tab, KeysOf(pkeys), c);
    OneByte(Code(tab), KeysOf(pkeys), c);
    var r := UpdateKeys(pkeys, tab, c);
    e := XorByte(t, c);
  }

  const HEAD: nat := 12    // RAND_HEAD_LEN

  /** Encode `plain` into the front of the buffer. */
  method EncodeInto(pkeys: array<word64>, tab: Table, plain: seq<byte>, buf: array<byte>, at: nat)
    requires pkeys.Length == 3 && at + |plain| <= buf.Length
    modifies pkeys, buf
    ensures KeysOf(pkeys) == Absorb(Code(tab), old(KeysOf(pkeys)), plain)
    ensures buf[at..at + |plain|] == Encode(Code(tab), old(KeysOf(pkeys)), plain)
    ensures forall i :: 0 <= i < buf.Length && !(at <= i < at + |plain|) ==> buf[i] == old(buf[i])
  {
    ghost var k := KeysOf(pkeys);
    var n := 0;
    while n < |plain|
      invariant n <= |plain|
      invariant KeysOf(pkeys) == Absorb(Code(tab), k, plain[..n])
      invariant buf[at..at + n] == Encode(Code(tab), k, plain[..n])
      invariant forall i :: 0 <= i < buf.Length && !(at <= i < at + n) ==> buf[i] == old(buf[i])
    {
      EncodeConcat(Code(tab), k, plain[..n], [plain[n]]);
      AbsorbConcat(Code(tab), k, plain[..n], [plain[n]]);
      assert plain[..n + 1] == plain[..n] + [plain[n]];
      var e := ZEncode(pkeys, tab, plain[n]);
      buf[at + n] := e;
      assert buf[at..at + n + 1] == buf[at..at + n] + [e];
      n := n + 1;
    }
    assert plain[..n] == plain;
  }

  /** (int) (crc >> 16) & 0xff and (int) (crc >> 24) & 0xff. */
  function CrcTail(crc: word64): seq<byte>
  {
    [crc / K64 % 256, crc / TWO24 % 256]
  }

  /** The ten bytes that the header hides: random ones, encrypted once by themselves. */
  function HiddenHead(tab: Table, passwd: seq<byte>, random: seq<byte>): seq<byte>
  {
    Encode(Code(tab), Absorb(Code(tab), START, CStr(passwd)), random)
  }

  /** crypthead(): `random` are the low bytes of rand() >> 7. */
  method CryptHead(passwd: seq<byte>, buf: array<byte>, bufSize: nat, pkeys: array<word64>, tab: Table, crc: word64,
                   random: seq<byte>)
    returns (n: nat)
    requires pkeys.Length == 3 && bufSize <= buf.Length && |random| == HEAD - 2
    modifies pkeys, buf
    ensures n == if bufSize < HEAD then 0 else HEAD
    ensures n == 0 ==> buf[..] == old(buf[..]) && KeysOf(pkeys) == old(KeysOf(pkeys))
    ensures n == HEAD ==>
              var plain := HiddenHead(tab, passwd, random) + CrcTail(crc);
              && buf[..n] == Encode(Code(tab), Absorb(Code(tab), START, CStr(passwd)), plain)
              && KeysOf(pkeys) == Absorb(Code(tab), Absorb(Code(tab), START, CStr(passwd)), plain)
    ensures forall i :: n <= i < buf.Length ==> buf[i] == old(buf[i])
  {
    hide Encode, Absorb, Code, CStr;
    if bufSize < HEAD {
      return 0;
    }
    var header := new byte[HEAD - 2];
    InitKeys(passwd, pkeys, tab);
    EncodeInto(pkeys, tab, random, header, 0);
    InitKeys(passwd, pkeys, tab);
    ghost var k := KeysOf(pkeys);
    var head := header[..];
    assert head == HiddenHead(tab, passwd, random);
    EncodeInto(pkeys, tab, head, buf, 0);
    ghost var first := buf[0..10];
    EncodeInto(pkeys, tab, CrcTail(crc), buf, 10);
    EncodeConcat(Code(tab), k, head, CrcTail(crc));
    AbsorbConcat(Code(tab), k, head, CrcTail(crc));
    assert buf[..12] == first + buf[10..12];
    n := HEAD;
  }

  /** What a reader with the same password finds in the header: the hidden bytes and the two high
      bytes of the CRC; and it goes on with the keys that the writer goes on with. */
  lemma HeadDecodes(tab: Table, passwd: seq<byte>, random: seq<byte>, crc: word64, head: seq<byte>)
    requires |random| == HEAD - 2
    requires head == Encode(Code(tab), Absorb(Code(tab), START, CStr(passwd)),
             HiddenHead(tab, passwd, random) + CrcTail(crc))
    ensures var k := Absorb(Code(tab), START, CStr(passwd));
      && |head| == HEAD
      && Decode(Code(tab), k, head)[..10] == HiddenHead(tab, passwd, random)
      && Decode(Code(tab), k, head)[10..] == [crc / K64 % 256, crc / TWO24 % 256]
      && Decode(Code(tab), k, Decode(Code(tab), k, head)[..10]) == random
  {
    var k := Absorb(Code(tab), START, CStr(passwd));
    DecodeEncode(Code(tab), k, HiddenHead(tab, passwd, random) + CrcTail(crc));
    DecodeEncode(Code(tab), k, random);
  }
}
