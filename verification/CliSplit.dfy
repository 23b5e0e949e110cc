/** Quote and bracket scanning and split_up of ThirdParty/CLI11/CLI11.hpp. */
module CliSplit {
  import opened CliText

  /** Position of `c` in bracketChars: the openers " ' ` [ ( < { . */
  predicate IsOpener(c: char)
  {
    IsQuote(c) || c == '[' || c == '(' || c == '<' || c == '{'
  }

  predicate IsQuote(c: char)
  {
    c == '"' || c == '\'' || c == '`'
  }

  /** matchBracketChars at that position. */
  function Closer(c: char): char
    requires IsOpener(c)
  {
    if c == '[' then ']' else if c == '(' then ')' else if c == '<' then '>' else if c == '{' then '}' else c
  }

  /** The loop of close_string_quote() from `loc` on; a backslash at the very end makes it
      stop one past the end. */
  function CloseString(str: string, loc: nat, q: char): (r: nat)
    ensures loc <= r
    decreases |str| - loc
  {
    if loc >= |str| || str[loc] == q then loc
    else if str[loc] == '\\' then CloseString(str, loc + 2, q)
    else CloseString(str, loc + 1, q)
  }

  function CloseLiteral(str: string, start: nat, c: char): (r: nat)
    requires start < |str|
    ensures start < r <= |str|
  {
    Find(str, c, start + 1)
  }

  /** One turn of the bracket loop of close_sequence(): where to go on. */
  function SkipQuoted(str: string, loc: nat): (r: nat)
    requires loc < |str|
    ensures r > loc
  {
    if str[loc] == '"' then CloseString(str, loc + 1, '"') + 1
    else if IsQuote(str[loc]) then CloseLiteral(str, loc, str[loc]) + 1
    else loc + 1
  }

  function CloseNest(str: string, loc: nat, closures: string): (r: nat)
    requires closures != ""
    ensures r <= |str|
    decreases |str| - loc
  {
    if loc >= |str| then |str| else
      var open := if str[loc] == closures[|closures| - 1] then closures[..|closures| - 1] else closures;
      if open == "" then loc
      else if IsOpener(str[loc]) && !IsQuote(str[loc]) then CloseNest(str, loc + 1, open + [Closer(str[loc])])
      else CloseNest(str, SkipQuoted(str, loc), open)
  }

  predicate IsBracketCloser(c: char)
  {
    c == ']' || c == ')' || c == '>' || c == '}'
  }

  function CloseSequence(str: string, start: nat, closure: char): nat
    requires start < |str|
  {
    if closure == '"' then CloseString(str, start + 1, closure)
    else if IsBracketCloser(closure) then CloseNest(str, start + 1, [closure])
    else CloseLiteral(str, start, closure)
  }

  method CloseStringQuote(str: string, start: nat, closure: char) returns (loc: nat)
    ensures loc == CloseString(str, start + 1, closure)
  {
    loc := start + 1;
    while loc < |str|
      invariant CloseString(str, start + 1, closure) == CloseString(str, loc, closure)
    {
      if str[loc] == closure {
        break;
      }
      if str[loc] == '\\' {
        loc := loc + 1;
      }
      loc := loc + 1;
    }
  }

  method FindCloser(str: string, start: nat, closure: char) returns (loc: nat)
    requires start < |str|
    ensures loc == CloseSequence(str, start, closure)
  {
    if closure == '"' {
      loc := CloseStringQuote(str, start, closure);
      return;
    }
    if !IsBracketCloser(closure) {
      return CloseLiteral(str, start, closure);
    }
    var closures := [closure];
    loc := start + 1;
    while loc < |str|
      invariant closures != ""
      invariant CloseNest(str, start + 1, [closure]) == CloseNest(str, loc, closures)
      decreases |str| - loc
    {
      if str[loc] == closures[|closures| - 1] {
        closures := closures[..|closures| - 1];
        if closures == "" {
          return;
        }
      }
      var c := str[loc];
      if c == '"' {
        loc := CloseStringQuote(str, loc, c);
      } else if c == '\'' || c == '`' {
        loc := CloseLiteral(str, loc, c);
      } else if IsOpener(c) {
        closures := closures + [Closer(c)];
      }
      loc := loc + 1;
    }
    if loc > |str| {
      loc := |str|;
    }
  }

  predicate IsDelimiter(c: char, delimiter: char)
  {
    if delimiter == '\0' then IsSpace(c) else c == delimiter
  }

  function FindDelimiter(s: string, delimiter: char): (r: nat)
    ensures r <= |s| && (r < |s| ==> IsDelimiter(s[r], delimiter))
    ensures forall i :: 0 <= i < r ==> !IsDelimiter(s[i], delimiter)
  {
    if s == "" || IsDelimiter(s[0], delimiter) then 0 else 1 + FindDelimiter(s[1..], delimiter)
  }

  /** The first element of a nonempty trimmed string, and what is left of the string. */
  function SplitOne(str: string, delimiter: char): (r: (string, string))
    requires str != ""
    ensures |r.1| < |str| && |r.0| <= |str|
  {
    if IsOpener(str[0]) then
      var end := CloseSequence(str, 0, Closer(str[0]));
      if end >= |str| then (str, "")
      else (str[..end + 1], if end + 2 < |str| then str[end + 2..] else "")
    else
      var at := FindDelimiter(str, delimiter);
      if at < |str| then (str[..at], str[at + 1..]) else (str, "")
  }

  /** The loop of split_up() on a string that is already trimmed. */
  function SplitTrimmed(str: string, delimiter: char): (r: seq<string>)
    ensures forall i :: 0 <= i < |r| ==> |r[i]| <= |str|
    decreases |str|
  {
    if str == "" then [] else
      var (item, rest) := SplitOne(str, delimiter);
      [item] + SplitTrimmed(Trim(rest), delimiter)
  }

  function Split(str: string, delimiter: char): (r: seq<string>)
    ensures forall i :: 0 <= i < |r| ==> |r[i]| <= |str|
  {
    SplitTrimmed(Trim(str), delimiter)
  }

  /** One turn of the loop of split_up(). */
  method TakeItem(str: string, delimiter: char) returns (item: string, rest: string)
    requires str != ""
    ensures (item, rest) == SplitOne(str, delimiter)
  {
    if IsOpener(str[0]) {
      var end := FindCloser(str, 0, Closer(str[0]));
      if end >= |str| {
        item, rest := str, "";
      } else {
        item := str[..end + 1];
        rest := if end + 2 < |str| then str[end + 2..] else "";
      }
    } else {
      var it := FindDelimiter(str, delimiter);
      if it != |str| {
        item, rest := str[..it], str[it + 1..];
      } else {
        item, rest := str, "";
      }
    }
  }

  method SplitUp(input: string, delimiter: char) returns (output: seq<string>)
    ensures output == Split(input, delimiter)
  {
    var str := Trim(input);
    output := [];
    while str != ""
      invariant output + SplitTrimmed(str, delimiter) == Split(input, delimiter)
      decreases |str|
    {
      var item, rest := TakeItem(str, delimiter);
      ghost var tail := SplitTrimmed(Trim(rest), delimiter);
      assert output + ([item] + tail) == output + [item] + tail;
      output := output + [item];
      str := Trim(rest);
    }
  }

  // ---- what the scanners find -------------------------------------------

  /** Text in which close_string_quote() meets no closing double quote: the text between quotes. */
  predicate Inside(s: string)
    decreases |s|
  {
    s == "" || (s[0] == '\\' && |s| >= 2 && Inside(s[2..])) || (s[0] != '\\' && s[0] != '"' && Inside(s[1..]))
  }

  lemma {:induction false} CloseStringAfter(str: string, loc: nat, s: string)
    requires Inside(s) && loc + |s| < |str| && str[loc..loc + |s|] == s && str[loc + |s|] == '"'
    ensures CloseString(str, loc, '"') == loc + |s|
    decreases |s|
  {
    if s != "" {
      assert str[loc] == s[0];
      var n := if s[0] == '\\' then 2 else 1;
      assert str[loc + n..loc + |s|] == s[n..];
      CloseStringAfter(str, loc + n, s[n..]);
    }
  }

  /** A printed value: quoted so that its closing quote is found, or bare without special characters. */
  datatype Form = InString | InLiteral | Bare

  predicate BareChar(c: char)
  {
    c != ',' && c != '#' && c != ' ' && !IsOpener(c) && !IsBracketCloser(c) && !IsSpace(c)
  }

  predicate HasForm(t: string, f: Form)
  {
    match f
    case InString => |t| >= 2 && t[0] == '"' && t[|t| - 1] == '"' && Inside(t[1..|t| - 1])
    case InLiteral => |t| >= 2 && t[0] == '\'' && t[|t| - 1] == '\'' && '\'' !in t[1..|t| - 1]
    case Bare => t != "" && forall i :: 0 <= i < |t| ==> BareChar(t[i])
  }

  lemma SliceOfSlice(s: string, lo: nat, hi: nat, i: nat, j: nat)
    requires lo <= hi <= |s| && i <= j <= hi - lo
    ensures s[lo..hi][i..j] == s[lo + i..lo + j]
  {
    var a, b := s[lo..hi][i..j], s[lo + i..lo + j];
    forall k | 0 <= k < j - i
      ensures a[k] == b[k]
    {
      assert a[k] == s[lo..hi][i + k];
    }
  }

  /** The quote that opens a value closes at its end, whatever follows. */
  lemma CloseValue(str: string, loc: nat, t: string, f: Form)
    requires HasForm(t, f) && !f.Bare? && loc + |t| <= |str| && str[loc..loc + |t|] == t
    ensures IsQuote(str[loc]) && Closer(str[loc]) == str[loc]
    ensures CloseSequence(str, loc, str[loc]) == loc + |t| - 1
    ensures SkipQuoted(str, loc) == loc + |t|
  {
    var n := |t|;
    assert str[loc] == str[loc..loc + n][0] && str[loc + n - 1] == str[loc..loc + n][n - 1];
    SliceOfSlice(str, loc, loc + n, 1, n - 1);
    if f.InString? {
      CloseStringAfter(str, loc + 1, t[1..n - 1]);
    } else {
      FindIs(str, '\'', loc + 1, loc + n - 1);
    }
  }

  lemma FindDelimiterIs(s: string, delimiter: char, r: nat)
    requires r < |s| && IsDelimiter(s[r], delimiter)
    requires forall i :: 0 <= i < r ==> !IsDelimiter(s[i], delimiter)
    ensures FindDelimiter(s, delimiter) == r
  {
  }

  lemma FormIsTight(t: string, f: Form)
    requires HasForm(t, f)
    ensures Tight(t)
  {
  }

  /** A value is split off exactly, together with the comma behind it. */
  lemma SplitValue(t: string, f: Form, rest: string)
    requires HasForm(t, f)
    ensures SplitOne(t + ", " + rest, ',') == (t, " " + rest)
    ensures SplitOne(t, ',') == (t, "")
  {
    var str := t + ", " + rest;
    assert str[0] == t[0] && str[|t|] == ',' && str[|t| + 1..] == " " + rest;
    assert str[..|t|] == t;
    if f.Bare? {
      assert forall i :: 0 <= i < |t| ==> str[i] == t[i];
      assert BareChar(t[0]);
      FindDelimiterIs(str, ',', |t|);
    } else {
      CloseValue(str, 0, t, f);
      CloseValue(t, 0, t, f);
    }
  }
}
