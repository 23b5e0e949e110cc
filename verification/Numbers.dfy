/** Powers of two, for the modules that take words apart. */
module Numbers {

  function Pow2(n: nat): (r: nat)
    ensures r >= 1
  {
    if n == 0 then 1 else 2 * Pow2(n - 1)
  }

  lemma OneByteMore(n: nat)
    ensures Pow2(n + 8) == 256 * Pow2(n)
  {
    assert Pow2(n + 2) == 4 * Pow2(n);
    assert Pow2(n + 4) == 4 * Pow2(n + 2);
    assert Pow2(n + 6) == 4 * Pow2(n + 4);
  }

  /** The sizes of bytes and words. */
  lemma WordSizes()
    ensures Pow2(8) == 0x100 && Pow2(32) == 0x1_0000_0000 && Pow2(64) == 0x1_0000_0000_0000_0000
  {
    assert Pow2(0) == 1;
    hide Pow2;
    OneByteMore(0);
    OneByteMore(8);
    OneByteMore(16);
    OneByteMore(24);
    OneByteMore(32);
    OneByteMore(40);
    OneByteMore(48);
    OneByteMore(56);
  }

  /** A 32-bit unsigned number stored into an int. */
  function AsInt(n: nat): (r: int)
    requires n < 0x1_0000_0000
    ensures r >= 0 ==> r == n
    ensures r == 0 ==> n == 0
  {
    if n < 0x8000_0000 then n else n - 0x1_0000_0000
  }
}
