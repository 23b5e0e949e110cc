/** Backslash escapes: add_escaped_characters, remove_escaped_characters and the UTF-8
    encoder append_codepoint of ThirdParty/CLI11/CLI11.hpp. */
module CliEscape {
  import opened CliText

  predicate IsEscapable(c: char)
  {
    c == '\U{8}' || c == '\t' || c == '\n' || c == '\U{C}' || c == '\r' || c == '"' || c == '\\'
  }

  /** escapedCharsCode at the position of `c` in escapedChars. */
  function CodeOf(c: char): char
    requires IsEscapable(c)
  {
    if c == '\U{8}' then 'b' else if c == '\t' then 't' else if c == '\n' then 'n'
    else if c == '\U{C}' then 'f' else if c == '\r' then 'r' else c
  }

  predicate IsCode(c: char)
  {
    c == 'b' || c == 't' || c == 'n' || c == 'f' || c == 'r' || c == '"' || c == '\\'
  }

  /** escapedChars at the position of `c` in escapedCharsCode. */
  function CharOf(c: char): char
    requires IsCode(c)
  {
    if c == 'b' then '\U{8}' else if c == 't' then '\t' else if c == 'n' then '\n'
    else if c == 'f' then '\U{C}' else if c == 'r' then '\r' else c
  }

  predicate HasEscapable(s: string)
  {
    exists i :: 0 <= i < |s| && IsEscapable(s[i])
  }

  function AddOne(c: char): string
  {
    if IsEscapable(c) then ['\\', CodeOf(c)] else [c]
  }

  function AddEscaped(s: string): string
  {
    if s == "" then "" else AddOne(s[0]) + AddEscaped(s[1..])
  }

  method AddEscapedCharacters(str: string) returns (out: string)
    ensures out == AddEscaped(str)
  {
    out := "";
    for i := 0 to |str|
      invariant out + AddEscaped(str[i..]) == AddEscaped(str)
    {
      AddedMore(out, str, i);
      if IsEscapable(str[i]) {
        out := out + ['\\'] + [CodeOf(str[i])];
      } else {
        out := out + [str[i]];
      }
    }
  }

  lemma AddedMore(out: string, str: string, i: nat)
    requires i < |str|
    ensures out + AddEscaped(str[i..]) ==
            (if IsEscapable(str[i]) then out + ['\\'] + [CodeOf(str[i])] else out + [str[i]]) + AddEscaped(str[i + 1..])
  {
    hide IsEscapable, CodeOf;
    assert str[i..][1..] == str[i + 1..];
    var code, rest := AddOne(str[i]), AddEscaped(str[i + 1..]);
    assert AddEscaped(str[i..]) == code + rest;
    assert out + (code + rest) == out + code + rest;
  }

  // ---- code points ------------------------------------------------------

  const NOT_HEX: nat := 0xFFFF_FFFF

  /** hexConvert(): the digit, or (uint32_t)-1. */
  function HexConvert(c: char): (r: nat)
    ensures r < 16 || r == NOT_HEX
  {
    if '0' <= c <= '9' then (c - '0') as nat
    else if 'A' <= c <= 'F' then (c - 'A') as nat + 10
    else if 'a' <= c <= 'f' then (c - 'a') as nat + 10
    else NOT_HEX
  }

  predicate AllHex(d: string)
  {
    forall i :: 0 <= i < |d| ==> HexConvert(d[i]) < 16
  }

  function HexValue(d: string): (r: nat)
    requires AllHex(d)
  {
    if d == "" then 0 else 16 * HexValue(d[..|d| - 1]) + HexConvert(d[|d| - 1])
  }

  predicate Surrogate(code: nat)
  {
    0xD800 <= code <= 0xDFFF
  }

  predicate Scalar(code: nat)
  {
    code < 0x110000 && !Surrogate(code)
  }

  function Byte(n: nat): char
  {
    (n % 256) as char
  }

  /** append_codepoint(): the bytes pushed.  The masks touch disjoint bits, so "or" is a sum. */
  function Codepoint(code: nat): (r: Result<string>)
  {
    if code < 0x80 then Ok([Byte(code)])
    else if code < 0x800 then Ok([Byte(0xC0 + code / 64), Byte(0x80 + code % 64)])
    else if code < 0x10000 then
      if Surrogate(code) then Fail(NotUtf8)
      else Ok([Byte(0xE0 + code / 4096), Byte(0x80 + code / 64 % 64), Byte(0x80 + code % 64)])
    else if code < 0x110000 then
      Ok([Byte(0xF0 + code / 0x40000), Byte(0x80 + code / 4096 % 64), Byte(0x80 + code / 64 % 64),
        Byte(0x80 + code % 64)])
    else Ok("")
  }

  // ---- removing escapes -------------------------------------------------

  datatype Piece = Piece(text: string, used: nat)

  function HexEscape(s: string, digits: nat, error: TextError): (r: Result<Piece>)
    requires digits > 0
    ensures r.Ok? ==> 0 < r.value.used == digits + 2 <= |s|
  {
    if |s| < digits + 2 || !AllHex(s[2..digits + 2]) then Fail(error) else
      match Codepoint(HexValue(s[2..digits + 2]))
      case Ok(bytes) => Ok(Piece(bytes, digits + 2))
      case Fail(e) => Fail(e)
  }

  /** One escape sequence or plain character at the front of a nonempty `s`. */
  function TakeOne(s: string): (r: Result<Piece>)
    requires s != ""
    ensures r.Ok? ==> 0 < r.value.used <= |s|
  {
    if s[0] != '\\' then Ok(Piece([s[0]], 1))
    else if |s| < 2 then Fail(CutShort)
    else if IsCode(s[1]) then Ok(Piece([CharOf(s[1])], 2))
    else if s[1] == 'u' then HexEscape(s, 4, FourHexCodes)
    else if s[1] == 'U' then HexEscape(s, 8, EightHexCodes)
    else if s[1] == '0' then Ok(Piece("\0", 2))
    else Fail(Unrecognized)
  }

  function Prepend(text: string, rest: Result<string>): Result<string>
  {
    match rest
    case Ok(t) => Ok(text + t)
    case Fail(e) => Fail(e)
  }

  function RemoveEscaped(s: string): (r: Result<string>)
    decreases |s|
  {
    if s == "" then Ok("") else
      match TakeOne(s)
      case Ok(p) => Prepend(p.text, RemoveEscaped(s[p.used..]))
      case Fail(e) => Fail(e)
  }

  lemma PowerDown(n: nat)
    ensures n > 0 ==> Power16(n) / 16 == Power16(n - 1)
  {
  }

  lemma NoDigits(n: nat)
    ensures Weighted("", n) == 0
  {
  }

  lemma OneDigitMore(d: string, c: char, n: nat)
    requires AllHex(d) && HexConvert(c) < 16 && |d| < n
    ensures AllHex(d + [c]) && Weighted(d + [c], n) == Weighted(d, n) + HexConvert(c) * Power16(n - |d| - 1)
  {
    assert (d + [c])[..|d|] == d;
  }

  /** The loop over the hexadecimal digits of \u and \U, most significant first. */
  method ReadHex(str: string, from: nat, digits: nat, error: TextError) returns (r: Result<nat>)
    requires from + digits <= |str| && digits > 0
    ensures r == if AllHex(str[from..from + digits]) then Ok(HexValue(str[from..from + digits])) else Fail(error)
  {
    hide Power16, HexValue, Weighted;
    NoDigits(digits);
    assert str[from..from + 0] == "";
    var code, mplier := 0, Power16(digits - 1);
    for ii := 0 to digits
      invariant AllHex(str[from..from + ii])
      invariant ii < digits ==> mplier == Power16(digits - 1 - ii)
      invariant code == Weighted(str[from..from + ii], digits)
    {
      var res := HexConvert(str[from + ii]);
      if res > 0x0F {
        assert str[from..from + digits][ii] == str[from + ii];
        return Fail(error);
      }
      assert str[from..from + ii + 1] == str[from..from + ii] + [str[from + ii]];
      OneDigitMore(str[from..from + ii], str[from + ii], digits);
      PowerDown(digits - 1 - ii);
      code := code + res * mplier;
      mplier := mplier / 16;
    }
    WholeIsValue(str[from..from + digits]);
    r := Ok(code);
  }

  lemma WholeIsValue(d: string)
    requires AllHex(d)
    ensures Weighted(d, |d|) == HexValue(d)
  {
    WeightedIsValue(d, |d|);
  }

  /** The sum that the loop builds for the first digits of a number of `n` digits. */
  function Weighted(d: string, n: nat): nat
    requires AllHex(d) && |d| <= n
  {
    if d == "" then 0 else Weighted(d[..|d| - 1], n) + HexConvert(d[|d| - 1]) * Power16(n - |d|)
  }

  lemma {:induction false} WeightedIsValue(d: string, n: nat)
    requires AllHex(d) && |d| <= n
    ensures Weighted(d, n) == HexValue(d) * Power16(n - |d|)
  {
    if d != "" {
      WeightedIsValue(d[..|d| - 1], n);
      Distribute(HexValue(d[..|d| - 1]), HexConvert(d[|d| - 1]), Power16(n - |d|));
    }
  }

  lemma Distribute(v: nat, d: nat, p: nat)
    ensures v * (16 * p) + d * p == (16 * v + d) * p
  {
  }

  function Power16(n: nat): (r: nat)
    ensures r > 0
  {
    if n == 0 then 1 else 16 * Power16(n - 1)
  }

  lemma PrependTwice(a: string, b: string, rest: Result<string>)
    ensures Prepend(a, Prepend(b, rest)) == Prepend(a + b, rest)
    ensures Prepend("", rest) == rest
  {
    if rest.Ok? {
      assert a + (b + rest.value) == a + b + rest.value;
      assert "" + rest.value == rest.value;
    }
  }

  /** The escape branch of remove_escaped_characters at a backslash. */
  method EscapeAt(str: string, loc: nat) returns (r: Result<Piece>)
    requires loc < |str| && str[loc] == '\\'
    ensures r == TakeOne(str[loc..])
  {
    if |str| - loc < 2 {
      return Fail(CutShort);
    }
    var next := str[loc + 1];
    if IsCode(next) {
      return Ok(Piece([CharOf(next)], 2));
    } else if next == 'u' || next == 'U' {
      var digits, error := 4, FourHexCodes;
      if next == 'U' {
        digits, error := 8, EightHexCodes;
      }
      if |str| - loc < digits + 2 {
        return Fail(error);
      }
      var code := ReadHex(str, loc + 2, digits, error);
      assert str[loc..][2..digits + 2] == str[loc + 2..loc + 2 + digits];
      if code.Fail? {
        return Fail(code.error);
      }
      var bytes := Codepoint(code.value);
      if bytes.Fail? {
        return Fail(bytes.error);
      }
      return Ok(Piece(bytes.value, digits + 2));
    } else if next == '0' {
      return Ok(Piece("\0", 2));
    } else {
      return Fail(Unrecognized);
    }
  }

  method RemoveEscapedCharacters(str: string) returns (r: Result<string>)
    ensures r == RemoveEscaped(str)
  {
    var out, loc := "", 0;
    assert str[0..] == str;
    PrependTwice("", "", RemoveEscaped(str));
    while loc < |str|
      invariant loc <= |str|
      invariant RemoveEscaped(str) == Prepend(out, RemoveEscaped(str[loc..]))
    {
      var piece := Ok(Piece([str[loc]], 1));
      if str[loc] == '\\' {
        piece := EscapeAt(str, loc);
        if piece.Fail? {
          return Fail(piece.error);
        }
      }
      var Piece(text, used) := piece.value;
      assert str[loc..][used..] == str[loc + used..];
      PrependTwice(out, text, RemoveEscaped(str[loc + used..]));
      out, loc := out + text, loc + used;
    }
    assert out + "" == out;
    r := Ok(out);
  }

  /** remove_escaped_characters undoes add_escaped_characters on every string. */
  lemma {:induction false} RemoveUndoesAdd(s: string)
    ensures RemoveEscaped(AddEscaped(s)) == Ok(s)
  {
    if s != "" {
      var t := AddEscaped(s);
      var n := |AddOne(s[0])|;
      assert t[n..] == AddEscaped(s[1..]);
      assert TakeOne(t) == Ok(Piece([s[0]], n));
      RemoveUndoesAdd(s[1..]);
      assert [s[0]] + s[1..] == s;
    }
  }
}
