/** Printing and reading the value of a configuration entry (ThirdParty/CLI11/CLI11.hpp), with the
    default quote, array and separator characters.

    `numeric` is lexical_cast<double> succeeding; any predicate will do. */
module CliConfig {
  import opened CliText
  import opened CliEscape
  import opened CliBinary
  import opened CliSplit

  // ---- printing ---------------------------------------------------------

  predicate AllIn(s: string, from: nat, allowed: char -> bool)
    requires from <= |s|
  {
    forall i :: from <= i < |s| ==> allowed(s[i])
  }

  predicate IsDigit(c: char) { '0' <= c <= '9' }
  predicate IsHexDigit(c: char) { IsDigit(c) || 'A' <= c <= 'F' || 'a' <= c <= 'f' }
  predicate IsOctal(c: char) { '0' <= c <= '7' }
  predicate IsBit(c: char) { c == '0' || c == '1' }
  predicate IsNumberChar(c: char) { IsDigit(c) || c == '.' || c == '-' || c == '+' || c == 'e' || c == 'E' }

  /** is_printable(): line feed and tab count as well. */
  predicate IsPrintable(s: string)
  {
    forall i :: 0 <= i < |s| ==> IsPrint(s[i]) || s[i] == '\n' || s[i] == '\t'
  }

  predicate IsWord(s: string)
  {
    s == "true" || s == "false" || s == "nan" || s == "inf"
  }

  predicate IsPlainNumber(s: string, numeric: string -> bool)
  {
    !("0x" <= s) && !("0X" <= s) && numeric(s) && AllIn(s, 0, IsNumberChar)
  }

  predicate IsRadixNumber(s: string)
    requires |s| >= 2
  {
    s[0] == '0' && ((s[1] == 'x' && AllIn(s, 2, IsHexDigit)) || (s[1] == 'o' && AllIn(s, 2, IsOctal))
                    || (s[1] == 'b' && AllIn(s, 2, IsBit)))
  }

  /** Printed between triple quotes. */
  predicate IsMultiLine(s: string, disable: bool)
  {
    IsPrintable(s) && HasEscapable(s) && |s| > 100 && !disable
  }

  function Quoted(s: string): string { "\"" + s + "\"" }

  /** convert_arg_for_ini(). */
  function Convert(arg: string, numeric: string -> bool, disable: bool): string
  {
    if arg == "" then Quoted("")
    else if IsWord(arg) || IsPlainNumber(arg, numeric) then arg
    else if |arg| == 1 then
      if !IsPrint(arg[0]) then BinaryEscape(arg)
      else if arg == "'" then Quoted(arg)
      else "'" + arg + "'"
    else if IsRadixNumber(arg) then arg
    else if !IsPrintable(arg) then BinaryEscape(arg)
    else if IsMultiLine(arg, disable) then "'''" + arg + "'''"
    else if HasEscapable(arg) then Quoted(AddEscaped(arg))
    else Quoted(arg)
  }

  method ConvertArg(arg: string, numeric: string -> bool, disable: bool) returns (out: string)
    ensures out == Convert(arg, numeric, disable)
  {
    if arg == "" {
      return Quoted("");
    }
    if IsWord(arg) || IsPlainNumber(arg, numeric) {
      return arg;
    }
    if |arg| == 1 {
      if !IsPrint(arg[0]) {
        out := BinaryEscapeString(arg);
        return;
      }
      return if arg == "'" then Quoted(arg) else "'" + arg + "'";
    }
    if IsRadixNumber(arg) {
      return arg;
    }
    if !IsPrintable(arg) {
      out := BinaryEscapeString(arg);
    } else if HasEscapable(arg) {
      if |arg| > 100 && !disable {
        return "'''" + arg + "'''";
      }
      var escaped := AddEscapedCharacters(arg);
      out := Quoted(escaped);
    } else {
      out := Quoted(arg);
    }
  }

  function Join(ts: seq<string>): string
  {
    if ts == [] then "" else if |ts| == 1 then ts[0] else ts[0] + ", " + Join(ts[1..])
  }

  function Converted(args: seq<string>, numeric: string -> bool, disable: bool): (r: seq<string>)
    ensures |r| == |args|
    ensures forall i :: 0 <= i < |args| ==> r[i] == Convert(args[i], numeric, disable)
  {
    seq(|args|, i requires 0 <= i < |args| => Convert(args[i], numeric, disable))
  }

  /** ini_join(). */
  function IniJoin(args: seq<string>, numeric: string -> bool): string
  {
    var joined := Join(Converted(args, numeric, |args| > 1));
    if |args| > 1 then "[" + joined + "]" else joined
  }

  lemma {:induction false} JoinSnoc(ts: seq<string>, t: string)
    requires ts != []
    ensures Join(ts + [t]) == Join(ts) + ", " + t
  {
    if |ts| > 1 {
      JoinSnoc(ts[1..], t);
      assert (ts + [t])[1..] == ts[1..] + [t];
      assert Join(ts + [t]) == ts[0] + ", " + (Join(ts[1..]) + ", " + t);
    } else {
      assert (ts + [t])[1..] == [t];
    }
  }

  /** One converted value more, behind what is written already. */
  lemma JoinMore(lead: string, ts: seq<string>, t: string)
    ensures lead + Join(ts + [t]) == if ts == [] then lead + t else lead + Join(ts) + "," + " " + t
    ensures ts == [] ==> lead == lead + Join(ts)
  {
    if ts == [] {
      assert ts + [t] == [t];
    } else {
      JoinSnoc(ts, t);
      assert lead + (Join(ts) + ", " + t) == lead + Join(ts) + "," + " " + t;
    }
  }

  method JoinForIni(args: seq<string>, numeric: string -> bool) returns (joined: string)
    ensures joined == IniJoin(args, numeric)
  {
    hide Join, Convert, Converted;
    joined := "";
    var disable := false;
    if |args| > 1 {
      joined := joined + "[";
      disable := true;
    }
    ghost var all := Converted(args, numeric, disable);
    ghost var lead := joined;
    JoinMore(lead, [], "");
    var start := 0;
    for i := 0 to |args|
      invariant start == i && joined == lead + Join(all[..i])
    {
      if start > 0 {
        joined := joined + "," + " ";
      }
      start := start + 1;
      var t := ConvertArg(args[i], numeric, disable);
      JoinMore(lead, all[..i], t);
      assert all[..i + 1] == all[..i] + [t];
      joined := joined + t;
    }
    assert all[..|args|] == all;
    if |args| > 1 {
      joined := joined + "]";
    }
  }

  // ---- reading ----------------------------------------------------------

  function Double(s: string): string
  {
    if s == "" then "" else [s[0], s[0]] + Double(s[1..])
  }

  predicate IsBracketed(s: string)
  {
    |s| >= 2 && s[0] == '[' && s[|s| - 1] == ']'
  }

  /** handle_secondary_array(). */
  function Secondary(s: string): string
  {
    if IsBracketed(s) then "[[" + Double(s[1..]) else s
  }

  method HandleSecondaryArray(str: string) returns (out: string)
    ensures out == Secondary(str)
  {
    out := str;
    if |str| >= 2 && str[0] == '[' && str[|str| - 1] == ']' {
      var tstr := "[[";
      for ii := 1 to |str|
        invariant tstr + Double(str[ii..]) == "[[" + Double(str[1..])
      {
        assert str[ii..][1..] == str[ii + 1..];
        tstr := tstr + [str[ii]] + [str[ii]];
      }
      assert tstr + "" == tstr;
      out := tstr;
    }
  }

  datatype Processed = Processed(text: string, quoted: bool)

  predicate Enclosed(s: string, q: char)
  {
    |s| >= 2 && s[0] == q && s[|s| - 1] == q
  }

  /** process_quoted_string(). */
  function ProcessQuoted(s: string): Result<Processed>
  {
    if |s| <= 1 then Ok(Processed(s, false))
    else if IsBinaryEscaped(s) then Ok(Processed(Secondary(ExtractBinary(s)), true))
    else if Enclosed(s, '"') then
      var inner := s[1..|s| - 1];
      match if '\\' in inner then RemoveEscaped(inner) else Ok(inner)
      case Ok(t) => Ok(Processed(Secondary(t), true))
      case Fail(e) => Fail(e)
    else if Enclosed(s, '\'') || Enclosed(s, '`') then Ok(Processed(Secondary(s[1..|s| - 1]), true))
    else Ok(Processed(s, false))
  }

  method ProcessQuotedString(str: string) returns (r: Result<Processed>)
    ensures r == ProcessQuoted(str)
  {
    if |str| <= 1 {
      return Ok(Processed(str, false));
    }
    var text := str[1..|str| - 1];
    if IsBinaryEscaped(str) {
      text := ExtractBinaryString(str);
    } else if Enclosed(str, '"') {
      if '\\' in text {
        var t := RemoveEscapedCharacters(text);
        if t.Fail? {
          return Fail(t.error);
        }
        text := t.value;
      }
    } else if !Enclosed(str, '\'') && !Enclosed(str, '`') {
      return Ok(Processed(str, false));
    }
    text := HandleSecondaryArray(text);
    r := Ok(Processed(text, true));
  }

  predicate HasDoubleBrackets(s: string)
  {
    |s| >= 4 && s[0] == '[' && s[1] == '[' && s[|s| - 1] == ']' && s[|s| - 2] == ']'
  }

  /** The duplicated characters from `ii` to two before the end; None when two differ. */
  datatype Halved = Unequal | Halves(text: string)

  function Halve(s: string, ii: nat): Halved
    decreases |s| - ii
  {
    if ii + 2 >= |s| then Halves("")
    else if s[ii] != s[ii + 1] then Unequal
    else match Halve(s, ii + 2)
      case Unequal => Unequal
      case Halves(t) => Halves([s[ii]] + t)
  }

  /** _add_result() with delimiter '\0'; `many` is allow_extra_args_ || get_expected_max() > 1. */
  function AddResult(s: string, many: bool): seq<string>
    decreases |s|, 1
  {
    if HasDoubleBrackets(s) && Halve(s, 2).Halves? then ["[" + Halve(s, 2).text + "]"]
    else if many && IsBracketed(s) then AddResults(Split(s[1..|s| - 1], ','), many, |s|)
    else [s]
  }

  function AddResults(ss: seq<string>, many: bool, bound: nat): seq<string>
    requires forall i :: 0 <= i < |ss| ==> |ss[i]| < bound
    decreases bound, 0, |ss|
  {
    if ss == [] then [] else
      (if ss[0] == "" then [] else AddResult(ss[0], many)) + AddResults(ss[1..], many, bound)
  }

  /** The loop that halves a doubled string. */
  method HalveLoop(result: string) returns (nstrs: string, duplicated: bool)
    requires |result| >= 4
    ensures duplicated == Halve(result, 2).Halves?
    ensures duplicated ==> nstrs == "[" + Halve(result, 2).text
  {
    nstrs, duplicated := "[", true;
    var ii := 2;
    while ii < |result| - 2
      invariant Halve(result, 2).Halves? == Halve(result, ii).Halves?
      invariant Halve(result, 2).Halves? ==> "[" + Halve(result, 2).text == nstrs + Halve(result, ii).text
      decreases |result| - ii
    {
      if result[ii] == result[ii + 1] {
        nstrs := nstrs + [result[ii]];
      } else {
        duplicated := false;
        return;
      }
      ii := ii + 2;
    }
    assert nstrs + "" == nstrs;
  }

  method AddResultTo(result: string, res: seq<string>, many: bool) returns (out: seq<string>, count: nat)
    ensures out == res + AddResult(result, many) && count == |AddResult(result, many)|
    decreases |result|, 1
  {
    if HasDoubleBrackets(result) {
      var nstrs, duplicated := HalveLoop(result);
      if duplicated {
        return res + [nstrs + "]"], 1;
      }
    }
    if many && IsBracketed(result) {
      var inner := result[1..|result| - 1];
      var vars := SplitUp(inner, ',');
      out, count := AddEach(vars, res, many, |result|);
      return;
    }
    out, count := res + [result], 1;
  }

  /** The loop over the parts of a bracketed result. */
  method AddEach(vars: seq<string>, res: seq<string>, many: bool, ghost bound: nat)
    returns (out: seq<string>, count: nat)
    requires forall i :: 0 <= i < |vars| ==> |vars[i]| < bound
    ensures out == res + AddResults(vars, many, bound) && count == |AddResults(vars, many, bound)|
    decreases bound, 0
  {
    hide AddResult;
    out, count := res, 0;
    for i := 0 to |vars|
      invariant out == res + AddResults(vars[..i], many, bound) && count == |AddResults(vars[..i], many, bound)|
    {
      ghost var more := if vars[i] == "" then [] else AddResult(vars[i], many);
      AddResultsSnoc(vars[..i], vars[i], many, bound);
      assert vars[..i + 1] == vars[..i] + [vars[i]];
      assert res + (AddResults(vars[..i], many, bound) + more) == res + AddResults(vars[..i], many, bound) + more;
      if vars[i] != "" {
        var n;
        out, n := AddResultTo(vars[i], out, many);
        count := count + n;
      }
    }
    assert vars[..|vars|] == vars;
  }

  lemma {:induction false} AddResultsSnoc(ss: seq<string>, s: string, many: bool, bound: nat)
    requires |s| < bound && forall i :: 0 <= i < |ss| ==> |ss[i]| < bound
    ensures AddResults(ss + [s], many, bound) == AddResults(ss, many, bound) + if s == "" then []
            else AddResult(s, many)
  {
    if ss == [] {
      assert ss + [s] == [s];
    } else {
      assert (ss + [s])[1..] == ss[1..] + [s];
      AddResultsSnoc(ss[1..], s, many, bound);
    }
  }

  /** The value part of a line, when no later line continues it: strip the brackets and split. */
  function ReadItems(item: string): seq<string>
  {
    if |item| > 1 && item[0] == '[' then
      if item[|item| - 1] == ']' then Split(item[1..|item| - 1], ',') else Split(item[1..], ',')
    else if ',' in item then Split(item, ',')
    else if ' ' in item then Split(item, '\0')
    else [item]
  }

  function ProcessAll(items: seq<string>): Result<seq<string>>
  {
    if items == [] then Ok([]) else
      match ProcessQuoted(items[0])
      case Fail(e) => Fail(e)
      case Ok(p) =>
        match ProcessAll(items[1..])
        case Fail(e) => Fail(e)
        case Ok(rest) => Ok([p.text] + rest)
  }

  function AddAll(texts: seq<string>, many: bool): seq<string>
  {
    if texts == [] then [] else AddResult(texts[0], many) + AddAll(texts[1..], many)
  }

  /** From the items of an entry to the results of its option. */
  function ReadTexts(items: seq<string>, many: bool): Result<seq<string>>
  {
    match ProcessAll(items)
    case Fail(e) => Fail(e)
    case Ok(texts) => Ok(AddAll(texts, many))
  }

  function ReadValue(item: string, many: bool): Result<seq<string>>
  {
    ReadTexts(ReadItems(item), many)
  }

  lemma {:induction false} ProcessAllSnoc(ss: seq<string>, s: string)
    requires ProcessAll(ss).Ok?
    ensures ProcessAll(ss + [s]) ==
              if ProcessQuoted(s).Ok? then Ok(ProcessAll(ss).value + [ProcessQuoted(s).value.text])
                else Fail(ProcessQuoted(s).error)
  {
    hide ProcessQuoted;
    if ss == [] {
      assert ss + [s] == [s] && [s][1..] == [];
      if ProcessQuoted(s).Ok? {
        var last := [ProcessQuoted(s).value.text];
        assert last + [] == [] + last;
      }
    } else {
      assert (ss + [s])[1..] == ss[1..] + [s];
      ProcessAllSnoc(ss[1..], s);
      var first, rest := ProcessQuoted(ss[0]).value.text, ProcessAll(ss[1..]).value;
      assert ProcessAll(ss).value == [first] + rest;
      if ProcessQuoted(s).Ok? {
        var last := ProcessQuoted(s).value.text;
        assert [first] + (rest + [last]) == [first] + rest + [last];
      }
    }
  }

  lemma {:induction false} ProcessAllFails(ss: seq<string>, n: nat)
    requires n <= |ss| && ProcessAll(ss[..n]).Fail?
    ensures ProcessAll(ss) == ProcessAll(ss[..n])
    decreases n
  {
    hide ProcessQuoted;
    if n > 0 {
      assert ss[..n][1..] == ss[1..][..n - 1];
      if ProcessQuoted(ss[0]).Ok? {
        ProcessAllFails(ss[1..], n - 1);
      }
    }
  }

  lemma {:induction false} AddAllSnoc(texts: seq<string>, t: string, many: bool)
    ensures AddAll(texts + [t], many) == AddAll(texts, many) + AddResult(t, many)
  {
    hide AddResult;
    if texts == [] {
      assert [t][1..] == [];
    } else {
      assert (texts + [t])[1..] == texts[1..] + [t];
      AddAllSnoc(texts[1..], t, many);
    }
  }

  method SplitEntry(item: string) returns (items: seq<string>)
    ensures items == ReadItems(item)
  {
    if |item| > 1 && item[0] == '[' {
      if item[|item| - 1] == ']' {
        items := SplitUp(item[1..|item| - 1], ',');
      } else {
        items := SplitUp(item[1..], ',');
      }
    } else if ',' in item {
      items := SplitUp(item, ',');
    } else if ' ' in item {
      items := SplitUp(item, '\0');
    } else {
      items := [item];
    }
  }

  /** Take the quotes off the items and hand the results to the option. */
  method ReadEach(items: seq<string>, many: bool) returns (r: Result<seq<string>>)
    ensures r == ReadTexts(items, many)
  {
    hide ProcessQuoted, AddResult;
    var texts: seq<string> := [];
    for i := 0 to |items|
      invariant ProcessAll(items[..i]) == Ok(texts)
    {
      assert items[..i + 1] == items[..i] + [items[i]];
      ProcessAllSnoc(items[..i], items[i]);
      var p := ProcessQuotedString(items[i]);
      if p.Fail? {
        ProcessAllFails(items, i + 1);
        return Fail(p.error);
      }
      texts := texts + [p.value.text];
    }
    assert items[..|items|] == items;
    var res: seq<string> := [];
    for i := 0 to |texts|
      invariant res == AddAll(texts[..i], many)
    {
      assert texts[..i + 1] == texts[..i] + [texts[i]];
      AddAllSnoc(texts[..i], texts[i], many);
      var n;
      res, n := AddResultTo(texts[i], res, many);
    }
    assert texts[..|texts|] == texts;
    r := Ok(res);
  }

  /** The reading of an entry on one line: split, take the quotes off, and hand the results to the
      option. */
  method ReadEntry(item: string, many: bool) returns (r: Result<seq<string>>)
    ensures r == ReadValue(item, many)
  {
    var items := SplitEntry(item);
    r := ReadEach(items, many);
  }

  // ---- round trip -------------------------------------------------------

  lemma {:induction false} DoubleEnds(s: string)
    requires s != ""
    ensures |Double(s)| == 2 * |s|
    ensures Double(s)[2 * |s| - 1] == s[|s| - 1] && Double(s)[2 * |s| - 2] == s[|s| - 1]
    ensures Double(s)[0] == s[0]
  {
    if |s| > 1 {
      DoubleEnds(s[1..]);
    }
  }

  lemma {:induction false} HalveDoubled(text: string, at: nat, s: string)
    requires s != "" && at + 2 * |s| == |text| && text[at..] == Double(s)
    ensures Halve(text, at) == Halves(s[..|s| - 1])
    decreases |s|
  {
    DoubleEnds(s);
    if |s| > 1 {
      assert text[at] == text[at..][0] && text[at + 1] == text[at..][1];
      assert text[at + 2..] == text[at..][2..];
      HalveDoubled(text, at + 2, s[1..]);
      assert s[..|s| - 1] == [s[0]] + s[1..][..|s| - 2];
    }
  }

  /** Whatever the text is, adding it in its protected form adds exactly that one text. */
  lemma AddProtected(s: string, many: bool)
    ensures AddResult(Secondary(s), many) == [s]
  {
    hide AddResults, Double;
    if IsBracketed(s) {
      var text := Secondary(s);
      DoubleEnds(s[1..]);
      assert text[2..] == Double(s[1..]);
      assert text[|text| - 1] == text[2..][|text| - 3] && text[|text| - 2] == text[2..][|text| - 4];
      HalveDoubled(text, 2, s[1..]);
      assert s == "[" + s[1..][..|s| - 2] + "]";
    }
  }
}
