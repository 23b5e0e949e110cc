/** Values over several lines: the multi-line literals and arrays of from_config() in
    ThirdParty/CLI11/CLI11.hpp, and what every printed entry reads back as.

    An entry arrives as the value part of its first line and the lines behind it. */
module CliMultiLine {
  import opened CliText
  import opened CliEscape
  import opened CliBinary
  import opened CliSplit
  import opened CliConfig
  import opened CliRoundTrip

  const TRIPLE: string := "'''"

  predicate EndsIn(s: string, c: char)
  {
    s != "" && s[|s| - 1] == c
  }

  /** hasMLString(). */
  predicate HasMLString(s: string, q: char)
  {
    |s| >= 3 && s[|s| - 1] == q && s[|s| - 2] == q && s[|s| - 3] == q
  }

  predicate OpensMultiLine(item: string)
  {
    TRIPLE <= item || "\"\"\"" <= item
  }

  // ---- reading ----------------------------------------------------------

  /** A value, and the lines that are not consumed. */
  datatype Value = Value(text: string, rest: seq<string>)

  /** The line break in front of a further line; `join` says that the line before ended in a backslash. */
  function Broken(item: string, join: bool, first: bool): string
  {
    if join || (first && item == "") then item else item + "\n"
  }

  function WithoutBreak(t: string): string
  {
    if EndsIn(t, '\n') then t[..|t| - 1] else t
  }

  /** What stands between the quotes; double ones ask for the escapes to be removed. */
  function Finished(t: string, q: char, rest: seq<string>): Result<Value>
  {
    if q == '"' then
      match RemoveEscaped(t)
      case Ok(u) => Ok(Value(u, rest))
      case Fail(e) => Fail(e)
    else Ok(Value(t, rest))
  }

  /** The text of the line that closes the value. */
  function LastLine(item: string, join: bool, first: bool, line: string): string
    requires |line| >= 3
  {
    var body := line[..|line| - 3];
    WithoutBreak(Broken(item, join, first) + if join then LTrim(body) else body)
  }

  /** A line that does not close the value, without its backslash. */
  function Taken(line: string, join: bool): string
  {
    var l := if join then Trim(line) else line;
    if EndsIn(l, '\\') then l[..|l| - 1] else l
  }

  predicate Joins(line: string, join: bool)
  {
    EndsIn(if join then Trim(line) else line, '\\')
  }

  /** The loop over the further lines of a multi-line value. */
  function MoreLines(item: string, join: bool, first: bool, q: char, lines: seq<string>): Result<Value>
    decreases |lines|
  {
    if lines == [] then Ok(Value(item, []))
    else if HasMLString(RTrim(lines[0]), q) then Finished(LastLine(item, join, first, RTrim(lines[0])), q, lines[1..])
    else MoreLines(Broken(item, join, first) + Taken(lines[0], join), Joins(lines[0], join), false, q, lines[1..])
  }

  /** A multi-line value, from the text behind its opening quotes. */
  function MultiLine(item: string, q: char, lines: seq<string>): Result<Value>
  {
    if EndsIn(item, '\\') then MoreLines(item[..|item| - 1], true, true, q, lines)
    else if HasMLString(item, q) then Finished(item[..|item| - 3], q, lines)
    else MoreLines(item, false, true, q, lines)
  }

  /** An array that is not closed yet goes on with the next lines. */
  function Bracketed(item: string, lines: seq<string>): Value
    decreases |lines|
  {
    if EndsIn(item, ']') || lines == [] then Value(item, lines) else Bracketed(item + Trim(lines[0]), lines[1..])
  }

  datatype Entry = Entry(results: seq<string>, rest: seq<string>)

  function WithRest(r: Result<seq<string>>, rest: seq<string>): Result<Entry>
  {
    match r
    case Ok(results) => Ok(Entry(results, rest))
    case Fail(e) => Fail(e)
  }

  lemma {:induction false} HashStays(s: string)
    requires '#' in s
    ensures LTrim(s) != "" && Trim(s) != ""
    decreases |s|
  {
    if IsSpace(s[0]) {
      HashStays(s[1..]);
    } else {
      HashKept(s);
      assert LTrim(s) == s;
    }
  }

  lemma {:induction false} HashKept(s: string)
    requires '#' in s
    ensures RTrim(s) != ""
    decreases |s|
  {
    if IsSpace(s[|s| - 1]) {
      assert '#' in s[..|s| - 1];
      HashKept(s[..|s| - 1]);
    }
  }

  /** The value without a comment behind it. */
  function Uncommented(item: string): string
  {
    if '#' in item then
      HashStays(item);
      Trim(Split(item, '#')[0])
    else item
  }

  lemma TripleInside(first: string)
    requires OpensMultiLine(Trim(first))
    ensures |LTrim(first)| >= 3 && Trim(first)[0] == LTrim(first)[0]
  {
    var l := LTrim(first);
    assert RTrim(l) <= l;
  }

  /** One entry, from the value part of its first line. */
  function ReadLines(first: string, lines: seq<string>, many: bool): Result<Entry>
  {
    var item := Trim(first);
    if OpensMultiLine(item) then
      TripleInside(first);
      match MultiLine(LTrim(first)[3..], item[0], lines)
      case Ok(v) => WithRest(ReadTexts([v.text], many), v.rest)
      case Fail(e) => Fail(e)
    else
      var value := Uncommented(item);
      if |value| > 1 && value[0] == '[' then
        var v := Bracketed(value, lines);
        WithRest(ReadValue(v.text, many), v.rest)
      else WithRest(ReadValue(value, many), lines)
  }

  /** The loop over the further lines of a multi-line value. */
  method TakeLines(item0: string, join0: bool, q: char, lines: seq<string>) returns (r: Result<Value>)
    ensures r == MoreLines(item0, join0, true, q, lines)
  {
    hide Finished, LastLine, RTrim, HasMLString;
    var item, join, first, i := item0, join0, true, 0;
    assert lines[0..] == lines;
    while i < |lines|
      invariant i <= |lines| && MoreLines(item0, join0, true, q, lines) == MoreLines(item, join, first, q, lines[i..])
    {
      var line, l2 := RTrim(lines[i]), lines[i];
      assert lines[i..][0] == l2 && lines[i..][1..] == lines[i + 1..];
      if HasMLString(line, q) {
        r := CloseLines(item, join, first, q, line, lines[i + 1..]);
        return;
      }
      if join {
        l2 := Trim(l2);
      } else if !(first && item == "") {
        item := item + "\n";
      }
      join, first := false, false;
      if l2 != "" && l2[|l2| - 1] == '\\' {
        join := true;
        l2 := l2[..|l2| - 1];
      }
      item := item + l2;
      i := i + 1;
    }
    r := Ok(Value(item, []));
  }

  /** The line that closes the value. */
  method CloseLines(item0: string, join: bool, first: bool, q: char, line0: string, rest: seq<string>)
    returns (r: Result<Value>)
    requires HasMLString(line0, q)
    ensures r == Finished(LastLine(item0, join, first, line0), q, rest)
  {
    var item, line := item0, line0[..|line0| - 3];
    if join {
      line := LTrim(line);
    } else if !(first && item == "") {
      item := item + "\n";
    }
    item := item + line;
    if item != "" && item[|item| - 1] == '\n' {
      item := item[..|item| - 1];
    }
    r := Unescape(item, q, rest);
  }

  method Unescape(item: string, q: char, rest: seq<string>) returns (r: Result<Value>)
    ensures r == Finished(item, q, rest)
  {
    if q == '"' {
      var t := RemoveEscapedCharacters(item);
      return if t.Fail? then Fail(t.error) else Ok(Value(t.value, rest));
    }
    r := Ok(Value(item, rest));
  }

  method TakeMultiLine(item: string, q: char, lines: seq<string>) returns (r: Result<Value>)
    ensures r == MultiLine(item, q, lines)
  {
    if item != "" && item[|item| - 1] == '\\' {
      r := TakeLines(item[..|item| - 1], true, q, lines);
    } else if HasMLString(item, q) {
      r := Unescape(item[..|item| - 3], q, lines);
    } else {
      r := TakeLines(item, false, q, lines);
    }
  }

  method TakeBracketed(item0: string, lines: seq<string>) returns (item: string, rest: seq<string>)
    ensures Value(item, rest) == Bracketed(item0, lines)
  {
    item := item0;
    var i := 0;
    assert lines[0..] == lines;
    while !EndsIn(item, ']') && i < |lines|
      invariant i <= |lines| && Bracketed(item0, lines) == Bracketed(item, lines[i..])
      decreases |lines| - i
    {
      assert lines[i..][1..] == lines[i + 1..];
      item := item + Trim(lines[i]);
      i := i + 1;
    }
    rest := lines[i..];
  }

  /** An entry of from_config(), from the value part of its first line to the results of its option. */
  method ReadEntryLines(first: string, lines: seq<string>, many: bool) returns (r: Result<Entry>)
    ensures r == ReadLines(first, lines, many)
  {
    hide ReadTexts, MultiLine, Split, Trim, LTrim, ReadItems;
    var item := Trim(first);
    if OpensMultiLine(item) {
      TripleInside(first);
      var v := TakeMultiLine(LTrim(first)[3..], item[0], lines);
      if v.Fail? {
        return Fail(v.error);
      }
      var texts := ReadEach([v.value.text], many);
      return WithRest(texts, v.value.rest);
    }
    if '#' in item {
      HashStays(item);
      var citems := SplitUp(item, '#');
      SplitSome(item);
      item := Trim(citems[0]);
    }
    var rest := lines;
    if |item| > 1 && item[0] == '[' {
      item, rest := TakeBracketed(item, lines);
    }
    var results := ReadEntry(item, many);
    r := WithRest(results, rest);
  }

  lemma SplitSome(item: string)
    requires '#' in item
    ensures Split(item, '#') != [] && Uncommented(item) == Trim(Split(item, '#')[0])
  {
    HashStays(item);
  }

  // ---- texts only get shorter -------------------------------------------

  lemma {:induction false} ExtractShrinks(s: string, loc: nat, end: nat)
    requires end <= |s|
    ensures |Extract(s, loc, end)| <= if loc <= end then end - loc else 0
    decreases end - loc
  {
    if loc < end {
      ExtractShrinks(s, if HexAt(s, loc) then loc + 4 else loc + 1, end);
    }
  }

  lemma {:induction false} RemoveShrinks(s: string)
    ensures RemoveEscaped(s).Ok? ==> |RemoveEscaped(s).value| <= |s|
    decreases |s|
  {
    if s != "" && TakeOne(s).Ok? {
      var p := TakeOne(s).value;
      PieceShrinks(s);
      RemoveShrinks(s[p.used..]);
    }
  }

  lemma PieceShrinks(s: string)
    requires s != "" && TakeOne(s).Ok?
    ensures |TakeOne(s).value.text| <= TakeOne(s).value.used
  {
  }

  /** The text a value stands for is shorter than the value as soon as quotes come off. */
  lemma ProcessShrinks(s: string)
    requires ProcessQuoted(s).Ok?
    ensures !ProcessQuoted(s).value.quoted ==> ProcessQuoted(s).value.text == s
    ensures ProcessQuoted(s).value.quoted ==> exists t :: ProcessQuoted(s).value.text == Secondary(t) && |t| < |s|
  {
    if ProcessQuoted(s).value.quoted {
      var inner := s[1..|s| - 1];
      if IsBinaryEscaped(s) {
        ExtractShrinks(s, 3, |s| - 2);
        if IsWrapped(s) {
          ExtractShrinks(s, 4, |s| - 3);
        }
        assert ProcessQuoted(s).value.text == Secondary(ExtractBinary(s));
      } else if Enclosed(s, '"') && '\\' in inner {
        RemoveShrinks(inner);
        assert ProcessQuoted(s).value.text == Secondary(RemoveEscaped(inner).value);
      } else {
        assert ProcessQuoted(s).value.text == Secondary(inner);
      }
    }
  }

  lemma {:induction false} HalveShrinks(s: string, ii: nat)
    requires Halve(s, ii).Halves? && ii + 2 <= |s|
    ensures |Halve(s, ii).text| <= |s| - 2 - ii
    decreases |s| - ii
  {
    if ii + 2 < |s| && ii + 4 <= |s| {
      HalveShrinks(s, ii + 2);
    }
  }

  predicate NotLonger(rs: seq<string>, n: nat)
  {
    forall r :: r in rs ==> |r| <= n
  }

  lemma {:induction false} AddShrinks(s: string, many: bool)
    ensures NotLonger(AddResult(s, many), |s|)
    decreases |s|, 1
  {
    if HasDoubleBrackets(s) && Halve(s, 2).Halves? {
      HalveShrinks(s, 2);
    } else if many && IsBracketed(s) {
      AddsShrink(Split(s[1..|s| - 1], ','), many, |s|);
    }
  }

  lemma {:induction false} AddsShrink(ss: seq<string>, many: bool, bound: nat)
    requires forall i :: 0 <= i < |ss| ==> |ss[i]| < bound
    ensures forall r :: r in AddResults(ss, many, bound) ==> |r| < bound
    decreases bound, 0, |ss|
  {
    if ss != [] {
      AddShrinks(ss[0], many);
      AddsShrink(ss[1..], many, bound);
    }
  }

  /** An unquoted text is added as it is, unless it looks like an array. */
  predicate LooksLikeArray(s: string, many: bool)
  {
    IsBracketed(s) && (many || (HasDoubleBrackets(s) && Halve(s, 2).Halves?))
  }

  lemma AddsItself(s: string, many: bool)
    ensures AddResult(s, many) == [s] <==> !LooksLikeArray(s, many)
    ensures LooksLikeArray(s, many) ==> forall r :: r in AddResult(s, many) ==> |r| < |s|
  {
    assert s in [s];
    if LooksLikeArray(s, many) {
      if HasDoubleBrackets(s) && Halve(s, 2).Halves? {
        HalveShrinks(s, 2);
      } else {
        AddsShrink(Split(s[1..|s| - 1], ','), many, |s|);
      }
    }
  }

  /** A text that means itself: it is not wrapped in quotes and does not look like an array. */
  predicate Literal(s: string, many: bool)
  {
    (|s| <= 1 || !(IsBinaryEscaped(s) || Enclosed(s, '"') || Enclosed(s, '\'') || Enclosed(s, '`')))
      && !LooksLikeArray(s, many)
  }

  lemma OneText(t: string, many: bool)
    ensures ReadTexts([t], many) ==
            if ProcessQuoted(t).Ok? then Ok(AddResult(ProcessQuoted(t).value.text, many))
              else Fail(ProcessQuoted(t).error)
  {
    hide ProcessQuoted, AddResult;
    ProcessAllSnoc([], t);
    assert [] + [t] == [t];
    if ProcessQuoted(t).Ok? {
      var text := ProcessQuoted(t).value.text;
      assert [] + [text] == [text];
      AddAllSnoc([], text, many);
      assert AddAll([], many) + AddResult(text, many) == AddResult(text, many);
    }
  }

  /** Reading a text can give only itself, or something shorter. */
  lemma TextReads(t: string, many: bool, arg: string)
    requires |t| <= |arg|
    ensures ReadTexts([t], many) == Ok([arg]) <==> t == arg && Literal(arg, many)
  {
    OneText(t, many);
    if ProcessQuoted(t).Ok? {
      ProcessShrinks(t);
      ProcessedIsQuoted(t);
      hide ProcessQuoted, AddResult, Secondary;
      if ProcessQuoted(t).value.quoted {
        var u :| ProcessQuoted(t).value.text == Secondary(u) && |u| < |t|;
        AddProtected(u, many);
      } else {
        assert arg in [arg];
        AddsItself(t, many);
      }
    } else {
      ProcessedIsQuoted(t);
    }
  }

  lemma ProcessedIsQuoted(s: string)
    ensures (ProcessQuoted(s).Ok? && !ProcessQuoted(s).value.quoted) <==>
            |s| <= 1 || !(IsBinaryEscaped(s) || Enclosed(s, '"') || Enclosed(s, '\'') || Enclosed(s, '`'))
  {
  }

  // ---- printed lines ----------------------------------------------------

  /** The lines of a text, as getline() delivers them. */
  function LinesOf(s: string): (r: seq<string>)
    ensures r != []
    decreases |s|
  {
    var i := Find(s, '\n', 0);
    if i < |s| then [s[..i]] + LinesOf(s[i + 1..]) else [s]
  }

  function Unlines(ls: seq<string>): string
    requires ls != []
  {
    if |ls| == 1 then ls[0] else ls[0] + "\n" + Unlines(ls[1..])
  }

  predicate NoBreaks(ls: seq<string>)
  {
    forall i :: 0 <= i < |ls| ==> '\n' !in ls[i]
  }

  lemma {:induction false} UnlinesOfLines(s: string)
    ensures Unlines(LinesOf(s)) == s && NoBreaks(LinesOf(s))
    decreases |s|
  {
    var i := Find(s, '\n', 0);
    if i < |s| {
      UnlinesOfLines(s[i + 1..]);
      assert s == s[..i] + "\n" + s[i + 1..] && s[0..i] == s[..i];
    } else {
      assert s[0..i] == s;
    }
  }

  lemma LinesStep(line: string, more: string)
    requires '\n' !in line
    ensures LinesOf(line + "\n" + more) == [line] + LinesOf(more)
  {
    var s, n := line + "\n" + more, |line|;
    assert s[0..n] == line && s[n] == '\n' && s[n + 1..] == more && s[..n] == line;
    FindIs(s, '\n', 0, n);
  }

  lemma OneLine(s: string)
    requires '\n' !in s
    ensures LinesOf(s) == [s]
  {
    assert forall i :: 0 <= i < |s| ==> s[i] != '\n';
  }

  lemma {:induction false} LinesOfUnlines(ls: seq<string>)
    requires ls != [] && NoBreaks(ls)
    ensures LinesOf(Unlines(ls)) == ls
    decreases |ls|
  {
    hide LinesOf;
    if |ls| == 1 {
      OneLine(ls[0]);
    } else {
      LinesOfUnlines(ls[1..]);
      LinesStep(ls[0], Unlines(ls[1..]));
      assert ls == [ls[0]] + ls[1..];
    }
  }

  /** The closing quotes stand behind the last line. */
  function ClosedLines(ls: seq<string>): (r: seq<string>)
    requires ls != []
    ensures |r| == |ls|
  {
    ls[..|ls| - 1] + [ls[|ls| - 1] + TRIPLE]
  }

  lemma {:induction false} UnlinesClosed(ls: seq<string>)
    requires ls != []
    ensures Unlines(ClosedLines(ls)) == Unlines(ls) + TRIPLE
    decreases |ls|
  {
    if |ls| > 1 {
      ClosedTail(ls);
      UnlinesClosed(ls[1..]);
      assert ls[0] + "\n" + (Unlines(ls[1..]) + TRIPLE) == ls[0] + "\n" + Unlines(ls[1..]) + TRIPLE;
    }
  }

  lemma ClosedTail(ls: seq<string>)
    requires |ls| > 1
    ensures ClosedLines(ls)[0] == ls[0] && ClosedLines(ls)[1..] == ClosedLines(ls[1..])
  {
  }

  lemma NoBreaksClosed(ls: seq<string>)
    requires ls != [] && NoBreaks(ls)
    ensures NoBreaks(ClosedLines(ls))
  {
    forall i | 0 <= i < |ls|
      ensures '\n' !in ClosedLines(ls)[i]
    {
      assert '\n' !in ls[i];
    }
  }

  /** The lines of a text between triple quotes. */
  lemma LinesOfLiteral(arg: string)
    ensures var cs := ClosedLines(LinesOf(arg)); LinesOf(TRIPLE + arg + TRIPLE) == OpenedLines(cs)
  {
    hide LinesOf, ClosedLines, OpenedLines, TRIPLE, NoBreaks;
    var ls := LinesOf(arg);
    var cs := ClosedLines(ls);
    UnlinesOfLines(arg);
    UnlinesClosed(ls);
    NoBreaksClosed(ls);
    UnlinesOpened(cs);
    NoBreaksOpened(cs);
    LinesOfUnlines(OpenedLines(cs));
    assert TRIPLE + (arg + TRIPLE) == TRIPLE + arg + TRIPLE;
  }

  /** The opening quotes stand before the first line. */
  function OpenedLines(cs: seq<string>): (r: seq<string>)
    requires cs != []
    ensures |r| == |cs|
  {
    [TRIPLE + cs[0]] + cs[1..]
  }

  lemma UnlinesOpened(cs: seq<string>)
    requires cs != []
    ensures Unlines(OpenedLines(cs)) == TRIPLE + Unlines(cs)
  {
    hide TRIPLE;
    var all := OpenedLines(cs);
    assert all[0] == TRIPLE + cs[0] && all[1..] == cs[1..];
    if |cs| > 1 {
      assert TRIPLE + cs[0] + "\n" + Unlines(cs[1..]) == TRIPLE + (cs[0] + "\n" + Unlines(cs[1..]));
    }
  }

  lemma NoBreaksOpened(cs: seq<string>)
    requires cs != [] && NoBreaks(cs)
    ensures NoBreaks(OpenedLines(cs))
  {
    forall i | 0 <= i < |cs|
      ensures '\n' !in OpenedLines(cs)[i]
    {
      assert '\n' !in cs[i];
    }
  }

  // ---- which texts survive ----------------------------------------------

  /** Further lines that are taken as they are: none but the last closes the value or ends in a
      backslash, and the last one is not empty. */
  predicate Goes(ls: seq<string>)
    requires ls != []
    decreases |ls|
  {
    if |ls| == 1 then ls[0] != ""
    else !EndsIn(ls[0], '\\') && !HasMLString(RTrim(ls[0]), '\'') && Goes(ls[1..])
  }

  /** All lines of a literal; the first one has to have text. */
  predicate Keeps(ls: seq<string>)
    requires ls != []
  {
    |ls| == 1 || (ls[0] != "" && !EndsIn(ls[0], '\\') && !HasMLString(ls[0], '\'') && Goes(ls[1..]))
  }

  function Size(ls: seq<string>): nat
  {
    if ls == [] then 0 else 1 + |ls[0]| + Size(ls[1..])
  }

  lemma {:induction false} UnlinesSize(ls: seq<string>)
    requires ls != []
    ensures |Unlines(ls)| + 1 == Size(ls)
    decreases |ls|
  {
    if |ls| > 1 {
      UnlinesSize(ls[1..]);
    } else {
      assert Size(ls[1..]) == 0;
    }
  }

  lemma ClosingLine(l: string)
    ensures RTrim(l + TRIPLE) == l + TRIPLE && HasMLString(l + TRIPLE, '\'') && (l + TRIPLE)[..|l|] == l
    ensures !EndsIn(l + TRIPLE, '\\')
  {
    hide RTrim;
    BehindIs(l, TRIPLE);
    NothingTrimmed(l + TRIPLE);
  }

  lemma BehindIs(a: string, b: string)
    ensures (a + b)[..|a|] == a && forall i :: 0 <= i < |b| ==> (a + b)[|a| + i] == b[i]
    ensures b != "" ==> (a + b)[|a| + |b| - 1] == b[|b| - 1]
  {
  }

  lemma NothingTrimmed(s: string)
    requires s != "" && !IsSpace(s[|s| - 1])
    ensures RTrim(s) == s
  {
  }

  lemma LTrimShrinks(s: string)
    ensures |LTrim(s)| <= |s| && |Trim(s)| <= |s|
  {
  }

  lemma BrokenSize(item: string, join: bool, first: bool)
    ensures |Broken(item, join, first)| == |item| + if join || (first && item == "") then 0 else 1
  {
  }

  lemma TakenSize(line: string, join: bool)
    ensures |Taken(line, join)| <= |line| && (!join ==> (Joins(line, join) <==> EndsIn(line, '\\')))
  {
    LTrimShrinks(line);
  }

  lemma LastLineSize(item: string, join: bool, first: bool, line: string)
    requires |line| >= 3
    ensures |LastLine(item, join, first, line)| <= |item| + |line| - 2
    ensures join || (first && item == "") || |line| == 3 ==> |LastLine(item, join, first, line)| < |item| + |line| - 2
  {
    LTrimShrinks(line[..|line| - 3]);
  }

  /** The loop on the lines of a literal never gives more than they hold, and less as soon as
      something is in its way. */
  lemma {:induction false} MoreShrinks(item: string, join: bool, first: bool, ls: seq<string>, after: seq<string>)
    requires ls != []
    ensures var r := MoreLines(item, join, first, '\'', ClosedLines(ls) + after);
      && r.Ok? && |r.value.text| <= |item| + Size(ls)
      && (join || (first && item == "") || !Goes(ls) ==> |r.value.text| < |item| + Size(ls))
    decreases |ls|
  {
    hide RTrim, LTrim, LastLine, Taken, Broken, Joins, HasMLString, ClosedLines;
    var lines := ClosedLines(ls) + after;
    ClosedHead(ls);
    assert lines[0] == ClosedLines(ls)[0] && lines[1..] == ClosedLines(ls)[1..] + after;
    MLStringIsLong(RTrim(lines[0]));
    if HasMLString(RTrim(lines[0]), '\'') {
      LastLineSize(item, join, first, RTrim(lines[0]));
    } else {
      BrokenSize(item, join, first);
      TakenSize(ls[0], join);
      MoreShrinks(Broken(item, join, first) + Taken(ls[0], join), Joins(ls[0], join), false, ls[1..], after);
    }
  }

  lemma MLStringIsLong(s: string)
    ensures HasMLString(s, '\'') ==> |s| >= 3
  {
  }

  /** The first of the lines of a literal. */
  lemma ClosedHead(ls: seq<string>)
    requires ls != []
    ensures var cs := ClosedLines(ls);
      if |ls| == 1 then cs[0] == ls[0] + TRIPLE && RTrim(cs[0]) == cs[0] && HasMLString(cs[0], '\'')
        && Size(ls) == 1 + |ls[0]|
      else cs[0] == ls[0] && cs[1..] == ClosedLines(ls[1..])
  {
    if |ls| == 1 {
      ClosingLine(ls[0]);
      assert Size(ls[1..]) == 0;
    } else {
      ClosedTail(ls);
    }
  }

  lemma LastLineKeeps(item: string, first: bool, line: string)
    requires !(first && item == "") && line != "" && '\n' !in line
    ensures LastLine(item, false, first, line + TRIPLE) == item + "\n" + line
  {
    BehindIs(line, TRIPLE);
    var t := item + "\n" + line;
    assert t[|t| - 1] == line[|line| - 1];
  }

  lemma LineKeeps(item: string, first: bool, line: string)
    requires !(first && item == "") && !EndsIn(line, '\\')
    ensures Broken(item, false, first) + Taken(line, false) == item + "\n" + line && !Joins(line, false)
  {
  }

  /** And otherwise it gives all of them. */
  lemma {:induction false} MoreKeeps(item: string, first: bool, ls: seq<string>, after: seq<string>)
    requires ls != [] && Goes(ls) && NoBreaks(ls) && !(first && item == "")
    ensures MoreLines(item, false, first, '\'', ClosedLines(ls) + after) == Ok(Value(item + "\n" + Unlines(ls), after))
    decreases |ls|
  {
    hide RTrim, LTrim, LastLine, Taken, Broken, Joins, HasMLString, ClosedLines;
    var lines := ClosedLines(ls) + after;
    ClosedHead(ls);
    assert lines[0] == ClosedLines(ls)[0];
    assert '\n' !in ls[0];
    if |ls| == 1 {
      assert lines[1..] == after;
      LastLineKeeps(item, first, ls[0]);
    } else {
      assert lines[1..] == ClosedLines(ls[1..]) + after;
      var next := item + "\n" + ls[0];
      LineKeeps(item, first, ls[0]);
      MoreKeeps(next, false, ls[1..], after);
      assert next + "\n" + Unlines(ls[1..]) == item + "\n" + (ls[0] + "\n" + Unlines(ls[1..]));
    }
  }

  /** A printed literal is read back whole exactly when its lines keep. */
  lemma LiteralReads(arg: string, after: seq<string>)
    ensures var ls := LinesOf(arg); var cs := ClosedLines(ls); var r := MultiLine(cs[0], '\'', cs[1..] + after);
      && r.Ok? && |r.value.text| <= |arg|
      && (r.value.text == arg <==> Keeps(ls)) && (Keeps(ls) ==> r.value.rest == after)
  {
    var ls := LinesOf(arg);
    UnlinesOfLines(arg);
    UnlinesSize(ls);
    if |ls| == 1 {
      ClosingLine(ls[0]);
      assert [] + after == after;
    } else {
      ClosedTail(ls);
      var tail := ls[1..];
      assert NoBreaks(tail);
      if EndsIn(ls[0], '\\') {
        MoreShrinks(ls[0][..|ls[0]| - 1], true, true, tail, after);
      } else if !HasMLString(ls[0], '\'') {
        MoreShrinks(ls[0], false, true, tail, after);
        if Keeps(ls) {
          MoreKeeps(ls[0], true, tail, after);
        }
      }
    }
  }

  // ---- the other printed values stand on one line -----------------------

  lemma {:induction false} EscapedOneLine(s: string)
    ensures '\n' !in AddEscaped(s)
  {
    if s != "" {
      EscapedOneLine(s[1..]);
    }
  }

  lemma {:induction false} BodyOneLine(s: string, slash: bool)
    ensures '\n' !in Body(s, slash)
  {
    if s != "" {
      BodyOneLine(s[1..], EndsInSlash(Coded(s[0], slash)));
    }
  }

  lemma {:induction false} NoQuotesOneLine(s: string)
    requires '\n' !in s
    ensures '\n' !in NoQuotes(s)
  {
    if s != "" {
      NoQuotesOneLine(s[1..]);
    }
  }

  lemma BinaryOneLine(s: string)
    ensures '\n' !in BinaryEscape(s)
  {
    BodyOneLine(s, false);
    NoQuotesOneLine(Body(s, false));
  }

  lemma BareOneLine(s: string, numeric: string -> bool)
    requires IsWord(s) || IsPlainNumber(s, numeric) || (|s| >= 2 && IsRadixNumber(s))
    ensures '\n' !in s
  {
    assert forall i :: 0 <= i < |s| ==> s[i] != '\n';
  }

  lemma PlainOneLine(s: string)
    requires !HasEscapable(s)
    ensures '\n' !in s
  {
    assert forall i :: 0 <= i < |s| ==> s[i] != '\n';
  }

  lemma ConvertOneLine(arg: string, numeric: string -> bool, disable: bool)
    requires !IsMultiLine(arg, disable)
    ensures '\n' !in Convert(arg, numeric, disable)
  {
    hide BinaryEscape, AddEscaped, IsWord, IsPlainNumber, IsRadixNumber, HasEscapable, IsPrintable;
    EscapedOneLine(arg);
    BinaryOneLine(arg);
    if IsWord(arg) || IsPlainNumber(arg, numeric) || (|arg| >= 2 && IsRadixNumber(arg)) {
      BareOneLine(arg, numeric);
    } else if !HasEscapable(arg) {
      PlainOneLine(arg);
    }
  }

  lemma {:induction false} JoinOneLine(ts: seq<string>)
    requires NoBreaks(ts)
    ensures '\n' !in Join(ts)
  {
    if |ts| > 1 {
      assert forall i :: 0 <= i < |ts| - 1 ==> ts[1..][i] == ts[i + 1];
      JoinOneLine(ts[1..]);
    }
  }

  lemma OneLineForms(t: string, f: Form)
    requires HasForm(t, f)
    ensures !OpensMultiLine(t) && t[0] != '['
  {
    assert |t| > 2 ==> t[1..|t| - 1][0] == t[1] && t[1] in t[1..|t| - 1];
  }

  /** Reading an entry on one line. */
  lemma OneLineEntry(item: string, after: seq<string>, many: bool)
    requires Tight(item) && !OpensMultiLine(item) && Split(item, '#') == [item]
    requires item[0] == '[' ==> EndsIn(item, ']')
    ensures ReadLines(item, after, many) == WithRest(ReadValue(item, many), after)
  {
    hide Split, ReadValue, OpensMultiLine;
    TrimTight(item);
  }

  // ---- every printed entry ----------------------------------------------

  /** A long text that is printed between triple quotes comes back when its lines keep and it means
      itself; every other text comes back. */
  predicate Survives(arg: string, many: bool)
  {
    IsMultiLine(arg, false) ==> Keeps(LinesOf(arg)) && Literal(arg, many)
  }

  lemma LiteralEntry(arg: string, after: seq<string>, many: bool)
    ensures var ls := LinesOf(TRIPLE + arg + TRIPLE);
      ReadLines(ls[0], ls[1..] + after, many) == Ok(Entry([arg], after)) <==> Keeps(LinesOf(arg)) && Literal(arg, many)
  {
    hide MultiLine, Keeps, Literal, ReadTexts, LinesOf, ClosedLines;
    LinesOfLiteral(arg);
    var cs := ClosedLines(LinesOf(arg));
    LiteralReads(arg, after);
    var r := MultiLine(cs[0], '\'', cs[1..] + after);
    OpenedLine(cs[0], cs[1..] + after, many);
    TextReads(r.value.text, many, arg);
  }

  lemma OpenedLine(line: string, lines: seq<string>, many: bool)
    requires MultiLine(line, '\'', lines).Ok?
    ensures var v := MultiLine(line, '\'', lines).value;
      ReadLines(TRIPLE + line, lines, many) == WithRest(ReadTexts([v.text], many), v.rest)
  {
    hide MultiLine, ReadTexts;
    var first := TRIPLE + line;
    assert first[0] == '\'' && first[3..] == line && LTrim(first) == first;
    FrontStays(line);
  }

  lemma {:induction false} FrontStays(line: string)
    ensures TRIPLE <= RTrim(TRIPLE + line)
    decreases |line|
  {
    var t, n := TRIPLE + line, |line|;
    if n > 0 && IsSpace(line[n - 1]) {
      assert t[..|t| - 1] == TRIPLE + line[..n - 1];
      FrontStays(line[..n - 1]);
    }
  }

  lemma MultiLineIsConverted(arg: string, numeric: string -> bool)
    requires IsMultiLine(arg, false)
    ensures IniJoin([arg], numeric) == TRIPLE + arg + TRIPLE
  {
    var i :| 0 <= i < |arg| && IsEscapable(arg[i]);
    assert !IsWord(arg);
    assert IsRadixNumber(arg) ==> arg[0] == '0' && (i < 2 || !IsHexDigit(arg[i]));
    assert Converted([arg], numeric, false) == [TRIPLE + arg + TRIPLE];
  }

  /** Whatever is printed for an option of one or more values, written into a file and read from
      there with any lines behind it: the values come back, and no other line is touched, if and only
      if a text between triple quotes survives. */
  lemma EntryRoundTrip(args: seq<string>, numeric: string -> bool, many: bool, after: seq<string>)
    requires args != [] && forall i :: 0 <= i < |args| ==> Bytes(args[i])
    ensures var ls := LinesOf(IniJoin(args, numeric));
      ReadLines(ls[0], ls[1..] + after, many) == Ok(Entry(args, after)) <==> (|args| == 1 ==> Survives(args[0], many))
  {
    hide ReadLines, LinesOf, Keeps, Literal, ReadValue, Convert, Split, IsMultiLine, IniJoin;
    if |args| == 1 && IsMultiLine(args[0], false) {
      assert args == [args[0]];
      MultiLineIsConverted(args[0], numeric);
      LiteralEntry(args[0], after, many);
    } else {
      PrintedOnOneLine(args, numeric);
      var item := IniJoin(args, numeric);
      OneLine(item);
      assert [item][1..] + after == after;
      OneLineEntry(item, after, many);
      if |args| == 1 {
        assert args == [args[0]];
        SingleRoundTrip(args[0], numeric, many);
      } else {
        VectorRoundTrip(args, numeric, many);
      }
    }
  }

  lemma PrintedOnOneLine(args: seq<string>, numeric: string -> bool)
    requires args != [] && forall i :: 0 <= i < |args| ==> Bytes(args[i])
    requires |args| == 1 ==> !IsMultiLine(args[0], false)
    ensures var item := IniJoin(args, numeric);
      && Tight(item) && '\n' !in item && !OpensMultiLine(item) && Split(item, '#') == [item]
      && (item[0] == '[' ==> EndsIn(item, ']'))
  {
    hide Convert, Split, Join, HasForm, AllForms, Tight;
    var disable := |args| > 1;
    CommentSafe(args, numeric);
    var ts := Converted(args, numeric, disable);
    forall i | 0 <= i < |ts|
      ensures '\n' !in ts[i]
    {
      ConvertOneLine(args[i], numeric, disable);
    }
    JoinOneLine(ts);
    var fs := ReadConverted(args, ts, numeric, disable, true);
    if disable {
      BracketsAreTight(Join(ts));
    } else {
      SingleForm(ts, fs);
      OneLineForms(ts[0], fs[0]);
      FormIsTight(ts[0], fs[0]);
    }
  }

  lemma SingleForm(ts: seq<string>, fs: seq<Form>)
    requires |ts| == 1 && AllForms(ts, fs)
    ensures HasForm(ts[0], fs[0]) && Join(ts) == ts[0]
  {
  }

  lemma BracketsAreTight(s: string)
    ensures var t := "[" + s + "]"; Tight(t) && !OpensMultiLine(t) && EndsIn(t, ']') && ('\n' !in s ==> '\n' !in t)
  {
    var t := "[" + s + "]";
    assert t[0] == '[';
  }

  /** Two that are lost: a text that begins with a line break loses it, and a text in double quotes
      loses those. */
  lemma LostTexts(many: bool)
    ensures var arg := "\n" + seq(100, _ => 'a'); Bytes(arg) && !Survives(arg, many)
    ensures var arg := "\"" + seq(100, _ => 'a') + "\""; Bytes(arg) && !Survives(arg, many)
  {
    var body := seq(100, _ => 'a');
    var breaks, quotes := "\n" + body, "\"" + body + "\"";
    assert IsEscapable(breaks[0]) && IsEscapable(quotes[0]);
    assert breaks[0..0] == "" && breaks[1..] == body && breaks == "" + "\n" + body;
    LinesStep("", body);
    OneLine(body);
    assert [""] + [body] == ["", body];
    assert Enclosed(quotes, '"');
  }
}
