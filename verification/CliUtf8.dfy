/** Unicode escapes of ThirdParty/CLI11/CLI11.hpp against the syntax of UTF-8 byte sequences in
    sections 3 and 4 of RFC 3629. */
module CliUtf8 {
  import opened CliText
  import opened CliEscape

  datatype Decoded = Malformed | Scalars(codes: seq<nat>)

  predicate Tail(c: char)
  {
    0x80 as char <= c <= 0xBF as char
  }

  function Low6(c: char): nat
    requires Tail(c)
  {
    c as nat - 0x80
  }

  function Cons(code: nat, rest: Decoded): Decoded
  {
    match rest
    case Malformed => Malformed
    case Scalars(codes) => Scalars([code] + codes)
  }

  /** Second bytes allowed after a three-byte lead: no overlong forms, no surrogates. */
  predicate Second3(b0: nat, c: char)
  {
    Tail(c) && (b0 == 0xE0 ==> c >= 0xA0 as char) && (b0 == 0xED ==> c <= 0x9F as char)
  }

  /** Second bytes allowed after a four-byte lead: no overlong forms, nothing above 10FFFF. */
  predicate Second4(b0: nat, c: char)
  {
    Tail(c) && (b0 == 0xF0 ==> c >= 0x90 as char) && (b0 == 0xF4 ==> c <= 0x8F as char)
  }

  function DecodeUtf8(s: string): (r: Decoded)
    decreases |s|
  {
    if s == "" then Scalars([]) else
      var b0 := s[0] as nat;
      if b0 < 0x80 then Cons(b0, DecodeUtf8(s[1..]))
      else if 0xC2 <= b0 < 0xE0 && |s| >= 2 && Tail(s[1]) then
        Cons((b0 - 0xC0) * 64 + Low6(s[1]), DecodeUtf8(s[2..]))
      else if 0xE0 <= b0 < 0xF0 && |s| >= 3 && Second3(b0, s[1]) && Tail(s[2]) then
        Cons(((b0 - 0xE0) * 64 + Low6(s[1])) * 64 + Low6(s[2]), DecodeUtf8(s[3..]))
      else if 0xF0 <= b0 < 0xF5 && |s| >= 4 && Second4(b0, s[1]) && Tail(s[2]) && Tail(s[3]) then
        Cons((((b0 - 0xF0) * 64 + Low6(s[1])) * 64 + Low6(s[2])) * 64 + Low6(s[3]), DecodeUtf8(s[4..]))
      else Malformed
  }

  lemma TwoBytes(code: nat, rest: string)
    requires 0x80 <= code < 0x800
    ensures DecodeUtf8(Codepoint(code).value + rest) == Cons(code, DecodeUtf8(rest))
  {
    var s := Codepoint(code).value + rest;
    assert s[2..] == rest;
    assert s[0] as nat == 0xC0 + code / 64 && s[1] as nat == 0x80 + code % 64;
  }

  lemma ThreeBytes(code: nat, rest: string)
    requires 0x800 <= code < 0x10000 && !Surrogate(code)
    ensures DecodeUtf8(Codepoint(code).value + rest) == Cons(code, DecodeUtf8(rest))
  {
    var s := Codepoint(code).value + rest;
    var hi, mid, lo := code / 4096, code / 64 % 64, code % 64;
    ThreeDigits(code);
    assert s[3..] == rest;
    assert s[0] as nat == 0xE0 + hi && s[1] as nat == 0x80 + mid && s[2] as nat == 0x80 + lo;
    assert Second3(0xE0 + hi, s[1]);
  }

  lemma ThreeDigits(code: nat)
    requires code < 0x10000
    ensures code == (code / 4096 * 64 + code / 64 % 64) * 64 + code % 64 && code / 4096 < 16
  {
    assert code / 64 / 64 == code / 4096;
  }

  lemma SixBitDigits(code: nat)
    ensures code == ((code / 0x40000 * 64 + code / 4096 % 64) * 64 + code / 64 % 64) * 64 + code % 64
  {
    assert code / 64 / 64 == code / 4096 && code / 4096 / 64 == code / 0x40000;
  }

  lemma FourBytes(code: nat, rest: string)
    requires 0x10000 <= code < 0x110000
    ensures DecodeUtf8(Codepoint(code).value + rest) == Cons(code, DecodeUtf8(rest))
  {
    var s := Codepoint(code).value + rest;
    var top, hi, mid, lo := code / 0x40000, code / 4096 % 64, code / 64 % 64, code % 64;
    SixBitDigits(code);
    assert top < 5;
    assert s[4..] == rest;
    assert s[0] as nat == 0xF0 + top && s[1] as nat == 0x80 + hi;
    assert s[2] as nat == 0x80 + mid && s[3] as nat == 0x80 + lo;
    assert Second4(0xF0 + top, s[1]);
  }

  /** append_codepoint writes exactly the UTF-8 form of every scalar value. */
  lemma CodepointIsUtf8(code: nat, rest: string)
    requires Scalar(code)
    ensures Codepoint(code).Ok?
    ensures DecodeUtf8(Codepoint(code).value + rest) == Cons(code, DecodeUtf8(rest))
  {
    if code < 0x80 {
      var s := Codepoint(code).value + rest;
      assert s[0] as nat == code && s[1..] == rest;
    } else if code < 0x800 {
      TwoBytes(code, rest);
    } else if code < 0x10000 {
      ThreeBytes(code, rest);
    } else {
      FourBytes(code, rest);
    }
  }

  /** \uXXXX or \UXXXXXXXX with the given hexadecimal digits. */
  datatype Escape = Short(digits: string) | Long(digits: string)

  predicate WellShaped(e: Escape)
  {
    AllHex(e.digits) && |e.digits| == if e.Short? then 4 else 8
  }

  function Value(e: Escape): nat
    requires WellShaped(e)
  {
    HexValue(e.digits)
  }

  function Spelling(e: Escape): string
  {
    (if e.Short? then "\\u" else "\\U") + e.digits
  }

  function Text(es: seq<Escape>): string
  {
    if es == [] then "" else Spelling(es[0]) + Text(es[1..])
  }

  /** The values, without those above 10FFFF: append_codepoint pushes nothing for them. */
  function Kept(es: seq<Escape>): seq<nat>
    requires forall e :: e in es ==> WellShaped(e)
  {
    if es == [] then [] else
      (if Value(es[0]) < 0x110000 then [Value(es[0])] else []) + Kept(es[1..])
  }

  /** One escape at the front of a text. */
  lemma EscapeStep(e: Escape, rest: string)
    requires WellShaped(e)
    ensures RemoveEscaped(Spelling(e) + rest) ==
            if Codepoint(Value(e)).Ok? then Prepend(Codepoint(Value(e)).value, RemoveEscaped(rest)) else Fail(NotUtf8)
  {
    var t, n := Spelling(e) + rest, |e.digits|;
    assert t[2..n + 2] == e.digits && t[n + 2..] == rest;
  }

  predicate NoSurrogate(es: seq<Escape>)
    requires forall e :: e in es ==> WellShaped(e)
  {
    es == [] || (!Surrogate(Value(es[0])) && NoSurrogate(es[1..]))
  }

  /** A text of escapes is accepted exactly when it names no surrogate, and what comes out is
      well-formed UTF-8 for the named scalar values, in order. */
  lemma {:induction false} EscapesDecode(es: seq<Escape>)
    requires forall e :: e in es ==> WellShaped(e)
    ensures RemoveEscaped(Text(es)).Ok? <==> NoSurrogate(es)
    ensures RemoveEscaped(Text(es)).Ok? ==> DecodeUtf8(RemoveEscaped(Text(es)).value) == Scalars(Kept(es))
    ensures RemoveEscaped(Text(es)).Fail? ==> RemoveEscaped(Text(es)).error == NotUtf8
  {
    if es != [] {
      var code := Value(es[0]);
      EscapesDecode(es[1..]);
      EscapeStep(es[0], Text(es[1..]));
      var rest := RemoveEscaped(Text(es[1..]));
      if rest.Ok? && Scalar(code) {
        CodepointIsUtf8(code, rest.value);
      } else if rest.Ok? && !Surrogate(code) {
        assert "" + rest.value == rest.value;
        assert [] + Kept(es[1..]) == Kept(es[1..]);
      }
    }
  }

  /** A value vanishes exactly when it is out of range; otherwise all are kept in order. */
  lemma {:induction false} KeptAll(es: seq<Escape>)
    requires forall e :: e in es ==> WellShaped(e)
    ensures |Kept(es)| <= |es| && (|Kept(es)| == |es| <==> forall i :: 0 <= i < |es| ==> Value(es[i]) < 0x110000)
    ensures |Kept(es)| == |es| ==> forall i :: 0 <= i < |es| ==> Kept(es)[i] == Value(es[i])
  {
    if es != [] {
      KeptAll(es[1..]);
      assert es == [es[0]] + es[1..];
    }
  }

  /** One more digit behind `d`, a 0 or a 1. */
  lemma HexSnoc(d: string, c: char, r: string)
    requires AllHex(d) && (c == '0' || c == '1') && |r| == |d| + 1 && r[..|d|] == d && r[|d|] == c
    ensures AllHex(r) && HexValue(r) == 16 * HexValue(d) + if c == '1' then 1 else 0
  {
    assert r == d + [c];
  }

  /** The smallest value that vanishes: the text is accepted, and nothing is left of it. */
  lemma FirstToVanish()
    ensures WellShaped(Long("00110000")) && Value(Long("00110000")) == 0x110000
    ensures RemoveEscaped("\\U00110000") == Ok("")
  {
    hide HexValue, AllHex, Codepoint, RemoveEscaped;
    FirstDigits();
    HexSnoc("0011", '0', "00110");
    HexSnoc("00110", '0', "001100");
    HexSnoc("001100", '0', "0011000");
    HexSnoc("0011000", '0', "00110000");
    EscapeStep(Long("00110000"), "");
    assert Spelling(Long("00110000")) + "" == "\\U00110000";
    NothingPushed();
  }

  lemma NothingPushed()
    ensures Codepoint(0x110000) == Ok("") && RemoveEscaped("") == Ok("") && "" + "" == ""
  {
  }

  lemma FirstDigits()
    ensures AllHex("0011") && HexValue("0011") == 0x11
  {
    NoDigit();
    hide HexValue, AllHex;
    HexSnoc("", '0', "0");
    HexSnoc("0", '0', "00");
    HexSnoc("00", '1', "001");
    HexSnoc("001", '1', "0011");
  }

  lemma NoDigit()
    ensures AllHex("") && HexValue("") == 0
  {
  }
}
