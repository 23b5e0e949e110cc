/** Binary-escaped strings of ThirdParty/CLI11/CLI11.hpp: 'B"(...)"' with \xHH inside. */
module CliBinary {
  import opened CliText
  import opened CliEscape

  /** Two lower-case hexadecimal digits, as the string stream prints them with "0" in front. */
  function HexDigit(n: nat): (c: char)
    requires n < 16
    ensures HexConvert(c) == n && c != '\'' && c != '\\'
  {
    if n < 10 then '0' + n as char else 'a' + (n - 10) as char
  }

  function HexPair(c: char): (r: string)
    ensures |r| == 4 && r[0] == '\\' && r[1] == 'x' && '\'' !in r
  {
    ['\\', 'x', HexDigit(c as nat / 16 % 16), HexDigit(c as nat % 16)]
  }

  /** What is appended for `c`; `slash` says that the text so far ends with a backslash. */
  function Coded(c: char, slash: bool): string
  {
    if !IsPrint(c) || ((c == 'x' || c == 'X') && slash) then HexPair(c) else [c]
  }

  predicate EndsInSlash(s: string)
  {
    s != "" && s[|s| - 1] == '\\'
  }

  /** The first loop of binary_escape_string(). */
  function Body(s: string, slash: bool): string
  {
    if s == "" then "" else
      Coded(s[0], slash) + Body(s[1..], EndsInSlash(Coded(s[0], slash)))
  }

  const QUOTE_CODE: string := "\\x27"

  /** The second loop: every single quote becomes \x27. */
  function NoQuotes(s: string): (r: string)
    ensures '\'' !in r
  {
    if s == "" then "" else (if s[0] == '\'' then QUOTE_CODE else [s[0]]) + NoQuotes(s[1..])
  }

  function BinaryEscape(s: string): string
  {
    var e := Body(s, false);
    if e == s then s else Wrap(NoQuotes(e))
  }

  /** One turn of the first loop of binary_escape_string(). */
  method AppendCoded(text: string, c: char) returns (out: string)
    ensures out == text + Coded(c, EndsInSlash(text))
  {
    if !IsPrint(c) {
      out := text + HexPair(c);
    } else if (c == 'x' || c == 'X') && text != "" && text[|text| - 1] == '\\' {
      out := text + "\\x" + (if c == 'x' then "78" else "58");
      assert HexPair(c) == "\\x" + (if c == 'x' then "78" else "58");
    } else {
      out := text + [c];
    }
  }

  method BinaryEscapeString(str: string) returns (out: string)
    ensures out == BinaryEscape(str)
  {
    out := "";
    for i := 0 to |str|
      invariant out + Body(str[i..], EndsInSlash(out)) == Body(str, false)
    {
      BodyMore(out, str, i);
      out := AppendCoded(out, str[i]);
    }
    assert out + "" == out;
    if out != str {
      out := ReplaceQuotes(out);
      out := "'B\"(" + out + ")\"'";
    }
  }

  lemma BodyMore(out: string, str: string, i: nat)
    requires i < |str|
    ensures var code := Coded(str[i], EndsInSlash(out));
      out + Body(str[i..], EndsInSlash(out)) == out + code + Body(str[i + 1..], EndsInSlash(code))
  {
    hide Coded, EndsInSlash;
    assert str[i..][1..] == str[i + 1..];
    var code, rest := Coded(str[i], EndsInSlash(out)), str[i + 1..];
    assert out + (code + Body(rest, EndsInSlash(code))) == out + code + Body(rest, EndsInSlash(code));
  }

  method ReplaceQuotes(text: string) returns (out: string)
    ensures out == NoQuotes(text)
  {
    hide Find, NoQuotes;
    out := text;
    ghost var done, rest := "", text;
    var at := Find(out, '\'', 0);
    while at < |out|
      invariant out == done + rest && '\'' !in done
      invariant NoQuotes(text) == done + NoQuotes(rest)
      invariant at == Find(out, '\'', 0)
      decreases |rest|
    {
      ghost var k := at - |done|;
      ReplaceStep(done, rest);
      out := out[..at] + "\\" + "x27" + out[at + 1..];
      done, rest := done + rest[..k] + QUOTE_CODE, rest[k + 1..];
      at := Find(out, '\'', 0);
    }
    FirstIsInRest(done, rest);
    assert rest[..|rest|] == rest;
    AllClean(rest);
  }

  lemma AllClean(rest: string)
    requires '\'' !in rest
    ensures NoQuotes(rest) == rest
  {
    NoQuotesUpTo(rest, |rest|);
    assert rest[..|rest|] == rest;
  }

  /** Replacing the first quote of a text whose first part is already clean. */
  lemma ReplaceStep(done: string, rest: string)
    requires '\'' !in done && Find(done + rest, '\'', 0) < |done + rest|
    ensures var out := done + rest; var at := Find(out, '\'', 0); var k := at - |done|;
      && 0 <= k < |rest|
      && '\'' !in done + rest[..k] + QUOTE_CODE
      && out[..at] + "\\" + "x27" + out[at + 1..] == done + rest[..k] + QUOTE_CODE + rest[k + 1..]
      && done + NoQuotes(rest) == done + rest[..k] + QUOTE_CODE + NoQuotes(rest[k + 1..])
  {
    FirstIsInRest(done, rest);
    var k := Find(done + rest, '\'', 0) - |done|;
    Splice4(done, rest, k);
    CleanUpTo(rest, k);
    var tail := NoQuotes(rest[k + 1..]);
    assert done + (rest[..k] + QUOTE_CODE + tail) == done + rest[..k] + QUOTE_CODE + tail;
  }

  lemma CleanUpTo(rest: string, k: nat)
    requires k < |rest| && '\'' !in rest[..k] && rest[k] == '\''
    ensures NoQuotes(rest) == rest[..k] + QUOTE_CODE + NoQuotes(rest[k + 1..])
  {
    NoQuotesUpTo(rest, k);
    assert rest[k..][0] == '\'' && rest[k..][1..] == rest[k + 1..];
  }

  lemma Splice4(done: string, rest: string, k: nat)
    requires k < |rest|
    ensures var out := done + rest; var at := |done| + k;
      out[..at] + "\\" + "x27" + out[at + 1..] == done + rest[..k] + QUOTE_CODE + rest[k + 1..]
  {
    var out, at := done + rest, |done| + k;
    assert out[..at] == done + rest[..k] && out[at + 1..] == rest[k + 1..];
    assert "\\" + "x27" == QUOTE_CODE;
  }

  lemma FirstIsInRest(done: string, rest: string)
    requires '\'' !in done
    ensures Find(done + rest, '\'', 0) >= |done|
    ensures '\'' !in rest[..Find(done + rest, '\'', 0) - |done|]
  {
    var s := done + rest;
    var at := Find(s, '\'', 0);
    assert forall i :: 0 <= i < |done| ==> s[i] == done[i];
    forall i | 0 <= i < at - |done|
      ensures rest[i] != '\''
    {
      assert s[0..at][|done| + i] == rest[i];
    }
  }

  lemma {:induction false} NoQuotesUpTo(s: string, n: nat)
    requires n <= |s| && '\'' !in s[..n]
    ensures NoQuotes(s) == s[..n] + NoQuotes(s[n..])
  {
    if n > 0 {
      assert s[0] in s[..n] && s[1..][..n - 1] == s[..n][1..];
      NoQuotesUpTo(s[1..], n - 1);
      assert s[1..][n - 1..] == s[n..];
    }
  }

  // ---- reading it back --------------------------------------------------

  /** str[i], or the terminating NUL just behind the end. */
  function CharAt(s: string, i: nat): char
  {
    if i < |s| then s[i] else '\0'
  }

  predicate IsWrapped(s: string)
  {
    |s| >= 4 && s[..4] == "'B\"(" && s[|s| - 3..] == ")\"'"
  }

  predicate IsBareWrapped(s: string)
  {
    |s| >= 3 && s[..3] == "B\"(" && s[|s| - 2..] == ")\""
  }

  /** is_binary_escaped_string(); its callers have at least two characters. */
  predicate IsBinaryEscaped(s: string)
  {
    IsBareWrapped(s) || IsWrapped(s)
  }

  predicate HexAt(s: string, i: nat)
  {
    && CharAt(s, i) == '\\' && (CharAt(s, i + 1) == 'x' || CharAt(s, i + 1) == 'X')
    && HexConvert(CharAt(s, i + 2)) < 16 && HexConvert(CharAt(s, i + 3)) < 16
  }

  function HexChar(s: string, i: nat): char
    requires HexAt(s, i)
  {
    (HexConvert(CharAt(s, i + 2)) * 16 + HexConvert(CharAt(s, i + 3))) as char
  }

  /** The loop of extract_binary_string() from `loc` to `end`; lookahead may pass `end`. */
  function Extract(s: string, loc: nat, end: nat): string
    requires end <= |s|
    decreases end - loc
  {
    if loc >= end then ""
    else if HexAt(s, loc) then
      [HexChar(s, loc)] + Extract(s, loc + 4, end)
    else [s[loc]] + Extract(s, loc + 1, end)
  }

  function ExtractBinary(s: string): string
  {
    if IsBareWrapped(s) then Extract(s, 3, |s| - 2)
    else if IsWrapped(s) then Extract(s, 4, |s| - 3)
    else s
  }

  method ExtractBinaryString(str: string) returns (out: string)
    ensures out == ExtractBinary(str)
  {
    if IsBareWrapped(str) {
      out := ExtractLoop(str, 3, |str| - 2);
    } else if IsWrapped(str) {
      out := ExtractLoop(str, 4, |str| - 3);
    } else {
      out := str;
    }
  }

  method ExtractLoop(str: string, start: nat, end: nat) returns (out: string)
    requires end <= |str|
    ensures out == Extract(str, start, end)
  {
    out := "";
    var loc := start;
    while loc < end
      invariant out + Extract(str, loc, end) == Extract(str, start, end)
    {
      var c, step := str[loc], 1;
      if HexAt(str, loc) {
        c, step := HexChar(str, loc), 4;
      }
      ghost var rest := Extract(str, loc + step, end);
      assert out + ([c] + rest) == out + [c] + rest;
      out, loc := out + [c], loc + step;
    }
    assert out + "" == out;
  }

  // ---- round trip -------------------------------------------------------

  /** What escaping is for: a non-printable character, or a backslash before x or X. */
  predicate NeedsEscape(s: string)
  {
    || (exists i :: 0 <= i < |s| && !IsPrint(s[i]))
    || (exists i :: 0 <= i < |s| - 1 && s[i] == '\\' && (s[i + 1] == 'x' || s[i + 1] == 'X'))
  }

  /** Both loops at once. */
  function Clean(s: string, slash: bool): string
  {
    if s == "" then "" else NoQuotes(Coded(s[0], slash)) + Clean(s[1..], EndsInSlash(Coded(s[0], slash)))
  }

  lemma {:induction false} NoQuotesConcat(a: string, b: string)
    ensures NoQuotes(a + b) == NoQuotes(a) + NoQuotes(b)
  {
    if a == "" {
      assert a + b == b;
    } else {
      assert (a + b)[1..] == a[1..] + b;
      NoQuotesConcat(a[1..], b);
    }
  }

  lemma {:induction false} CleanIsBoth(s: string, slash: bool)
    ensures NoQuotes(Body(s, slash)) == Clean(s, slash)
  {
    if s != "" {
      var code := Coded(s[0], slash);
      NoQuotesConcat(code, Body(s[1..], EndsInSlash(code)));
      CleanIsBoth(s[1..], EndsInSlash(code));
    }
  }

  /** The code of one character: the character, or its four-character escape. */
  lemma CodeShape(c: char, slash: bool)
    requires c < 256 as char
    ensures var code := NoQuotes(Coded(c, slash));
      || (code == HexPair(c) && !EndsInSlash(Coded(c, slash)))
      || (code == [c] && EndsInSlash(Coded(c, slash)) == (c == '\\') && (slash ==> c != 'x' && c != 'X'))
  {
    var coded := Coded(c, slash);
    if coded == [c] {
      assert NoQuotes([c]) == (if c == '\'' then QUOTE_CODE else [c]) + NoQuotes("");
      assert HexPair('\'') == QUOTE_CODE;
    } else {
      NoQuotesUpTo(coded, 4);
      assert coded[..4] == coded;
    }
  }

  lemma ReadHexPair(text: string, at: nat, c: char)
    requires at + 4 <= |text| && text[at..at + 4] == HexPair(c) && c < 256 as char
    ensures HexAt(text, at) && HexChar(text, at) == c
  {
    var code := text[at..at + 4];
    assert text[at] == code[0] && text[at + 1] == code[1] && text[at + 2] == code[2] && text[at + 3] == code[3];
  }

  lemma SliceParts(text: string, at: nat, end: nat, code: string, rest: string)
    requires at <= end <= |text| && text[at..end] == code + rest
    ensures at + |code| <= end && text[at..at + |code|] == code && text[at + |code|..end] == rest
  {
    assert text[at..end][..|code|] == text[at..at + |code|];
    assert text[at..end][|code|..] == text[at + |code|..end];
  }

  /** Reading the codes of a string in place. */
  lemma {:induction false} ExtractClean(text: string, at: nat, s: string, slash: bool, end: nat)
    requires Bytes(s) && at <= end < |text| && text[at..end] == Clean(s, slash) && text[end] == ')'
    ensures Extract(text, at, end) == s
    decreases |s|
  {
    if s != "" {
      var coded := Coded(s[0], slash);
      var code, rest := NoQuotes(coded), Clean(s[1..], EndsInSlash(coded));
      CodeShape(s[0], slash);
      SliceParts(text, at, end, code, rest);
      ExtractClean(text, at + |code|, s[1..], EndsInSlash(coded), end);
      assert s == [s[0]] + s[1..];
      if code == HexPair(s[0]) {
        ReadHexPair(text, at, s[0]);
      } else {
        assert text[at] == text[at..at + 1][0];
        if s[0] == '\\' {
          SlashIsAlone(s[1..]);
          assert text[at + 1] == if rest == "" then ')' else text[at + 1..end][0];
        }
      }
    }
  }

  /** Behind a backslash never comes a bare x or X. */
  lemma SlashIsAlone(s: string)
    requires Bytes(s)
    ensures Clean(s, true) != "" ==> Clean(s, true)[0] != 'x' && Clean(s, true)[0] != 'X'
  {
    if s != "" {
      CodeShape(s[0], true);
    }
  }

  /** Escaping changes a string exactly when it needs escaping. */
  lemma {:induction false} BodyUnchanged(s: string, slash: bool)
    ensures Body(s, slash) == s <==> !NeedsEscape(s) && !(slash && s != "" && (s[0] == 'x' || s[0] == 'X'))
    ensures |Body(s, slash)| >= |s|
  {
    if s != "" {
      var code, rest := Coded(s[0], slash), Body(s[1..], EndsInSlash(Coded(s[0], slash)));
      BodyUnchanged(s[1..], EndsInSlash(code));
      assert s == [s[0]] + s[1..];
      if |code| == 1 {
        assert code == [s[0]];
        assert (code + rest)[1..] == rest;
        NeedsEscapeStep(s);
      }
    }
  }

  lemma NeedsEscapeStep(s: string)
    requires s != ""
    ensures NeedsEscape(s) <==>
              (!IsPrint(s[0]) || NeedsEscape(s[1..]) || (|s| > 1 && s[0] == '\\' && (s[1] == 'x' || s[1] == 'X')))
  {
    var t := s[1..];
    if i :| 0 <= i < |t| && !IsPrint(t[i]) {
      assert s[i + 1] == t[i];
    }
    if i :| 0 <= i < |t| - 1 && t[i] == '\\' && (t[i + 1] == 'x' || t[i + 1] == 'X') {
      assert s[i + 1] == t[i] && s[i + 2] == t[i + 1];
    }
    if i :| 0 <= i < |s| && !IsPrint(s[i]) {
      assert i > 0 ==> t[i - 1] == s[i];
    }
    if i :| 0 <= i < |s| - 1 && s[i] == '\\' && (s[i + 1] == 'x' || s[i + 1] == 'X') {
      assert i > 0 ==> t[i - 1] == s[i] && t[i] == s[i + 1];
    }
  }

  function Wrap(body: string): string
  {
    "'B\"(" + body + ")\"'"
  }

  lemma WrapShape(body: string)
    ensures var text := Wrap(body);
      && IsWrapped(text) && !IsBareWrapped(text)
      && text[4..|text| - 3] == body && text[|text| - 3] == ')'
      && text[1..|text| - 1] == "B\"(" + body + ")\""
  {
    var text := Wrap(body);
    assert text[0] == '\'' && text[..4] == "'B\"(";
    assert text[|text| - 3..] == ")\"'";
    assert text[|text| - 3] == text[|text| - 3..][0];
    assert text[..|text| - 1] == "'B\"(" + body + ")\"";
    assert text[1..|text| - 1] == text[..|text| - 1][1..];
    assert |text| >= 3 ==> text[..3][0] == '\'';
  }

  /** Binary escaping and extraction are inverse; an escaped string is wrapped in single quotes
      with none inside, and any other string is left alone. */
  lemma BinaryRoundTrip(s: string)
    requires Bytes(s)
    ensures NeedsEscape(s) ==> ExtractBinary(BinaryEscape(s)) == s && IsWrapped(BinaryEscape(s))
    ensures NeedsEscape(s) ==> '\'' !in BinaryEscape(s)[1..|BinaryEscape(s)| - 1]
    ensures !NeedsEscape(s) ==> BinaryEscape(s) == s
  {
    BodyUnchanged(s, false);
    if NeedsEscape(s) {
      var body := NoQuotes(Body(s, false));
      CleanIsBoth(s, false);
      WrapShape(body);
      ExtractClean(Wrap(body), 4, s, false, |Wrap(body)| - 3);
    }
  }

  /** The form without the single quotes is extracted as well. */
  lemma BareRoundTrip(s: string)
    requires Bytes(s) && NeedsEscape(s)
    ensures var text := BinaryEscape(s); ExtractBinary(text[1..|text| - 1]) == s
  {
    BodyUnchanged(s, false);
    CleanIsBoth(s, false);
    var body := NoQuotes(Body(s, false));
    var text := "B\"(" + body + ")\"";
    WrapShape(body);
    assert text[..3] == "B\"(" && text[|text| - 2..] == ")\"" && text[3..|text| - 2] == body && text[|text| - 2] == ')';
    ExtractClean(text, 3, s, false, |text| - 2);
  }

  /** Both cases of x and of the digits are read. */
  lemma ReadsBothCases()
    ensures ExtractBinary("B\"(\\x4a\\X4A)\"") == "JJ"
  {
    var text := "B\"(\\x4a\\X4A)\"";
    assert text[..3] == "B\"(" && text[|text| - 2..] == ")\"";
    assert HexAt(text, 3) && HexAt(text, 7) && HexChar(text, 3) == 'J' && HexChar(text, 7) == 'J';
    assert Extract(text, 11, 11) == "";
    assert Extract(text, 7, 11) == "J";
  }
}
