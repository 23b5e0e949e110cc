/** Printing a vector of strings into a configuration file and reading it back gives the same
    vector (ThirdParty/CLI11/CLI11.hpp). */
module CliRoundTrip {
  import opened CliText
  import opened CliEscape
  import opened CliBinary
  import opened CliSplit
  import opened CliConfig

  lemma {:induction false} EscapedIsInside(s: string)
    ensures Inside(AddEscaped(s))
  {
    if s != "" {
      EscapedIsInside(s[1..]);
      var t := AddEscaped(s);
      assert t[|AddOne(s[0])|..] == AddEscaped(s[1..]);
    }
  }

  lemma {:induction false} PlainIsInside(s: string)
    requires '"' !in s && '\\' !in s
    ensures Inside(s)
  {
    if s != "" {
      assert s[0] in s;
      PlainIsInside(s[1..]);
    }
  }

  lemma QuotedParts(s: string)
    ensures Quoted(s)[0] == '"' && Quoted(s)[|s| + 1] == '"' && Quoted(s)[1..|s| + 1] == s && |Quoted(s)| == |s| + 2
    ensures !IsBinaryEscaped(Quoted(s))
  {
    var t := Quoted(s);
    assert t[1..|s| + 1] == s;
    assert |t| >= 3 ==> t[..3][0] == '"';
    assert |t| >= 4 ==> t[..4][0] == '"';
  }

  /** A string without escapable characters, in double quotes. */
  lemma QuotedPlain(s: string)
    requires '"' !in s && '\\' !in s
    ensures HasForm(Quoted(s), InString) && ProcessQuoted(Quoted(s)) == Ok(Processed(Secondary(s), true))
  {
    QuotedParts(s);
    PlainIsInside(s);
  }

  /** A string with escapable characters, escaped and in double quotes. */
  lemma QuotedEscaped(s: string)
    requires HasEscapable(s)
    ensures HasForm(Quoted(AddEscaped(s)), InString)
    ensures ProcessQuoted(Quoted(AddEscaped(s))) == Ok(Processed(Secondary(s), true))
  {
    QuotedParts(AddEscaped(s));
    EscapedIsInside(s);
    RemoveUndoesAdd(s);
    var i :| 0 <= i < |s| && IsEscapable(s[i]);
    SlashAppears(s, i);
  }

  lemma {:induction false} SlashAppears(s: string, i: nat)
    requires i < |s| && IsEscapable(s[i])
    ensures '\\' in AddEscaped(s)
  {
    if i == 0 {
      assert AddEscaped(s)[0] == '\\';
    } else {
      SlashAppears(s[1..], i - 1);
    }
  }

  lemma NoEscapable(s: string)
    requires !HasEscapable(s)
    ensures '"' !in s && '\\' !in s
  {
  }

  lemma BareValue(s: string)
    requires s != "" && forall i :: 0 <= i < |s| ==> BareChar(s[i])
    requires s[0] != 'B'
    ensures HasForm(s, Bare) && ProcessQuoted(s) == Ok(Processed(s, false)) && Secondary(s) == s
  {
    assert BareChar(s[0]);
    assert |s| >= 3 ==> s[..3][0] == s[0];
    assert |s| >= 4 ==> s[..4][0] == s[0];
  }

  lemma LiteralChar(c: char)
    requires c != '\''
    ensures HasForm("'" + [c] + "'", InLiteral) && ProcessQuoted("'" + [c] + "'") == Ok(Processed([c], true))
  {
    var t := "'" + [c] + "'";
    assert t[1..2] == [c];
    assert t[..3][0] == '\'';
  }

  lemma BinaryValue(s: string)
    requires Bytes(s) && NeedsEscape(s)
    ensures HasForm(BinaryEscape(s), InLiteral)
    ensures ProcessQuoted(BinaryEscape(s)) == Ok(Processed(Secondary(s), true))
  {
    BinaryRoundTrip(s);
    var t := BinaryEscape(s);
    assert t[0] == t[..4][0] && t[|t| - 1] == t[|t| - 3..][2];
  }

  lemma WordsAreBare(s: string)
    requires IsWord(s)
    ensures s != "" && s[0] != 'B' && forall i :: 0 <= i < |s| ==> BareChar(s[i])
  {
  }

  lemma RadixIsBare(s: string)
    requires |s| >= 2 && IsRadixNumber(s)
    ensures s[0] != 'B' && forall i :: 0 <= i < |s| ==> BareChar(s[i])
  {
    forall i | 0 <= i < |s|
      ensures BareChar(s[i])
    {
      assert i >= 2 ==> IsHexDigit(s[i]) || IsOctal(s[i]) || IsBit(s[i]);
    }
  }

  /** Each of the encodings is recognised by the splitter and undone by the reader. */
  lemma ValueRoundTrip(arg: string, numeric: string -> bool, disable: bool) returns (f: Form, p: Processed)
    requires Bytes(arg) && !IsMultiLine(arg, disable)
    ensures HasForm(Convert(arg, numeric, disable), f)
    ensures ProcessQuoted(Convert(arg, numeric, disable)) == Ok(p) && p.text == Secondary(arg)
  {
    if arg == "" {
      f, p := InString, Processed(Secondary(arg), true);
      QuotedPlain(arg);
    } else if IsWord(arg) {
      f, p := Bare, Processed(arg, false);
      WordsAreBare(arg);
      BareValue(arg);
    } else if IsPlainNumber(arg, numeric) {
      f, p := Bare, Processed(arg, false);
      assert forall i :: 0 <= i < |arg| ==> IsNumberChar(arg[i]);
      BareValue(arg);
    } else if |arg| == 1 {
      if !IsPrint(arg[0]) {
        f, p := InLiteral, Processed(Secondary(arg), true);
        BinaryValue(arg);
      } else if arg == "'" {
        f, p := InString, Processed(Secondary(arg), true);
        QuotedPlain(arg);
      } else {
        f, p := InLiteral, Processed(arg, true);
        assert arg == [arg[0]];
        LiteralChar(arg[0]);
      }
    } else if IsRadixNumber(arg) {
      f, p := Bare, Processed(arg, false);
      RadixIsBare(arg);
      BareValue(arg);
    } else if !IsPrintable(arg) {
      f, p := InLiteral, Processed(Secondary(arg), true);
      var i :| 0 <= i < |arg| && !(IsPrint(arg[i]) || arg[i] == '\n' || arg[i] == '\t');
      BinaryValue(arg);
    } else if HasEscapable(arg) {
      f, p := InString, Processed(Secondary(arg), true);
      QuotedEscaped(arg);
    } else {
      f, p := InString, Processed(Secondary(arg), true);
      NoEscapable(arg);
      QuotedPlain(arg);
    }
  }

  // ---- whole vectors ----------------------------------------------------

  predicate AllForms(ts: seq<string>, fs: seq<Form>)
  {
    |ts| == |fs| && forall i :: 0 <= i < |ts| ==> HasForm(ts[i], fs[i])
  }

  lemma {:induction false} JoinTight(ts: seq<string>, fs: seq<Form>)
    requires ts != [] && AllForms(ts, fs)
    ensures Tight(Join(ts))
  {
    FormIsTight(ts[0], fs[0]);
    if |ts| > 1 {
      JoinTight(ts[1..], fs[1..]);
    }
  }

  /** split_up on ',' undoes the joining. */
  lemma {:induction false} SplitJoin(ts: seq<string>, fs: seq<Form>)
    requires ts != [] && AllForms(ts, fs)
    ensures SplitTrimmed(Join(ts), ',') == ts
  {
    if |ts| == 1 {
      SplitValue(ts[0], fs[0], "");
      assert SplitTrimmed(ts[0], ',') == [ts[0]] + [];
    } else {
      var rest := Join(ts[1..]);
      SplitValue(ts[0], fs[0], rest);
      JoinTight(ts[1..], fs[1..]);
      TrimTight(rest);
      SplitJoin(ts[1..], fs[1..]);
      assert ts == [ts[0]] + ts[1..];
    }
  }

  lemma SplitJoined(ts: seq<string>, fs: seq<Form>)
    requires ts != [] && AllForms(ts, fs)
    ensures Split(Join(ts), ',') == ts
  {
    JoinTight(ts, fs);
    TrimTight(Join(ts));
    SplitJoin(ts, fs);
  }

  /** The values read from the converted arguments. */
  lemma {:induction false} ReadConverted(args: seq<string>, ts: seq<string>, numeric: string -> bool, disable: bool,
                                         many: bool)
    returns (fs: seq<Form>)
    requires |ts| == |args| && forall i :: 0 <= i < |args| ==> ts[i] == Convert(args[i], numeric, disable)
    requires forall i :: 0 <= i < |args| ==> Bytes(args[i]) && !IsMultiLine(args[i], disable)
    ensures AllForms(ts, fs)
    ensures ProcessAll(ts).Ok? && AddAll(ProcessAll(ts).value, many) == args
  {
    if args == [] {
      fs := [];
    } else {
      var f, p := ValueRoundTrip(args[0], numeric, disable);
      var gs := ReadConverted(args[1..], ts[1..], numeric, disable, many);
      AddProtected(args[0], many);
      fs := [f] + gs;
      var rest := ProcessAll(ts[1..]).value;
      assert ([p.text] + rest)[1..] == rest;
      assert args == [args[0]] + args[1..];
    }
  }

  /** An entry of two or more values, written as [a, b, ...]. */
  lemma VectorRoundTrip(args: seq<string>, numeric: string -> bool, many: bool)
    requires |args| >= 2 && forall i :: 0 <= i < |args| ==> Bytes(args[i])
    ensures ReadValue(IniJoin(args, numeric), many) == Ok(args)
  {
    var ts := Converted(args, numeric, true);
    var fs := ReadConverted(args, ts, numeric, true, many);
    var item := IniJoin(args, numeric);
    assert item == "[" + Join(ts) + "]" && item[1..|item| - 1] == Join(ts);
    SplitJoined(ts, fs);
  }

  /** An entry of one value, written without brackets. */
  lemma SingleRoundTrip(arg: string, numeric: string -> bool, many: bool)
    requires Bytes(arg) && !IsMultiLine(arg, false)
    ensures ReadValue(IniJoin([arg], numeric), many) == Ok([arg])
  {
    hide Convert, ProcessAll, AddAll, Split;
    var ts := Converted([arg], numeric, false);
    var fs := ReadConverted([arg], ts, numeric, false, many);
    var t, f := ts[0], fs[0];
    assert ts == [t] && IniJoin([arg], numeric) == t;
    SplitJoined(ts, fs);
    SplitSpaces(t, f);
    assert f.Bare? ==> BareChar(t[0]);
  }

  lemma SplitWhole(t: string, delimiter: char)
    requires t != "" && Trim(t) == t && SplitOne(t, delimiter) == (t, "")
    ensures Split(t, delimiter) == [t]
  {
    assert [t] + SplitTrimmed(Trim(""), delimiter) == [t];
  }

  lemma SplitSpaces(t: string, f: Form)
    requires HasForm(t, f)
    ensures ' ' in t ==> Split(t, '\0') == [t]
  {
    FormIsTight(t, f);
    TrimTight(t);
    if f.Bare? {
      assert forall i :: 0 <= i < |t| ==> BareChar(t[i]);
    } else {
      CloseValue(t, 0, t, f);
      SplitWhole(t, '\0');
    }
  }

  // ---- comments ---------------------------------------------------------

  /** Inside the brackets the scanner passes over a whole value. */
  lemma {:induction false} NestOverBare(str: string, loc: nat, n: nat)
    requires loc + n <= |str| && forall i :: loc <= i < loc + n ==> BareChar(str[i]) || str[i] == ',' || str[i] == ' '
    ensures CloseNest(str, loc, "]") == CloseNest(str, loc + n, "]")
    decreases n
  {
    if n > 0 {
      assert BareChar(str[loc]) || str[loc] == ',' || str[loc] == ' ';
      NestOverBare(str, loc + 1, n - 1);
    }
  }

  lemma NestOverValue(str: string, loc: nat, t: string, f: Form)
    requires HasForm(t, f) && loc + |t| <= |str| && str[loc..loc + |t|] == t
    ensures CloseNest(str, loc, "]") == CloseNest(str, loc + |t|, "]")
  {
    if f.Bare? {
      forall i | loc <= i < loc + |t|
        ensures BareChar(str[i])
      {
        assert str[i] == t[i - loc];
      }
      NestOverBare(str, loc, |t|);
    } else {
      CloseValue(str, loc, t, f);
    }
  }

  lemma NestOverItem(str: string, loc: nat, t: string, f: Form, rest: string)
    requires HasForm(t, f) && loc + |t| + 2 + |rest| <= |str|
    requires str[loc..loc + |t| + 2 + |rest|] == t + ", " + rest
    ensures CloseNest(str, loc, "]") == CloseNest(str, loc + |t| + 2, "]")
    ensures str[loc + |t| + 2..loc + |t| + 2 + |rest|] == rest
  {
    hide CloseNest, HasForm;
    var n, end := |t|, loc + |t| + 2 + |rest|;
    assert t + ", " + rest == t + (", " + rest);
    SliceParts(str, loc, end, t, ", " + rest);
    SliceParts(str, loc + n, end, ", ", rest);
    var gap := str[loc + n..loc + n + 2];
    assert str[loc + n] == gap[0] && str[loc + n + 1] == gap[1];
    NestOverValue(str, loc, t, f);
    NestOverBare(str, loc + n, 2);
  }

  lemma {:induction false} NestOverJoin(str: string, loc: nat, ts: seq<string>, fs: seq<Form>)
    requires ts != [] && AllForms(ts, fs) && loc + |Join(ts)| <= |str| && str[loc..loc + |Join(ts)|] == Join(ts)
    ensures CloseNest(str, loc, "]") == CloseNest(str, loc + |Join(ts)|, "]")
    decreases |ts|
  {
    hide CloseNest, HasForm;
    if |ts| > 1 {
      NestOverItem(str, loc, ts[0], fs[0], Join(ts[1..]));
      NestOverJoin(str, loc + |ts[0]| + 2, ts[1..], fs[1..]);
    } else {
      NestOverValue(str, loc, ts[0], fs[0]);
    }
  }

  /** A text in brackets is one element when its opening bracket closes at its end. */
  lemma NestCloses(item: string)
    requires |item| >= 2 && item[0] == '[' && item[|item| - 1] == ']'
    requires CloseNest(item, 1, "]") == CloseNest(item, |item| - 1, "]")
    ensures SplitOne(item, '#') == (item, "")
  {
    assert CloseNest(item, |item| - 1, "]") == |item| - 1;
    assert item[..|item|] == item;
  }

  lemma BracketedIsWhole(ts: seq<string>, fs: seq<Form>)
    requires ts != [] && AllForms(ts, fs)
    ensures Split("[" + Join(ts) + "]", '#') == ["[" + Join(ts) + "]"]
  {
    hide Join, AllForms;
    var item := "[" + Join(ts) + "]";
    TrimTight(item);
    assert item[1..|item| - 1] == Join(ts);
    NestOverJoin(item, 1, ts, fs);
    NestCloses(item);
    SplitWhole(item, '#');
  }

  lemma ValueIsWhole(t: string, f: Form)
    requires HasForm(t, f)
    ensures Split(t, '#') == [t]
  {
    FormIsTight(t, f);
    TrimTight(t);
    if f.Bare? {
      assert forall i :: 0 <= i < |t| ==> BareChar(t[i]);
    } else {
      CloseValue(t, 0, t, f);
    }
    SplitWhole(t, '#');
  }

  /** A '#' inside a printed value is never taken for a comment: splitting the value at the
      comment character leaves it whole. */
  lemma CommentSafe(args: seq<string>, numeric: string -> bool)
    requires args != [] && forall i :: 0 <= i < |args| ==> Bytes(args[i])
    requires |args| == 1 ==> !IsMultiLine(args[0], false)
    ensures Split(IniJoin(args, numeric), '#') == [IniJoin(args, numeric)]
  {
    var ts := Converted(args, numeric, |args| > 1);
    var fs := ReadConverted(args, ts, numeric, |args| > 1, true);
    if |args| > 1 {
      BracketedIsWhole(ts, fs);
    } else {
      ValueIsWhole(ts[0], fs[0]);
    }
  }

  // ---- lists without brackets -------------------------------------------

  lemma {:induction false} JoinEnds(ts: seq<string>, fs: seq<Form>)
    requires ts != [] && AllForms(ts, fs)
    ensures Join(ts) != "" && Join(ts)[0] != '[' && Join(ts)[|Join(ts)| - 1] != ']'
    ensures |ts| > 1 ==> ',' in Join(ts) && |Join(ts)| > 1
  {
    FormEnds(ts[0], fs[0]);
    if |ts| > 1 {
      JoinEnds(ts[1..], fs[1..]);
      var t := ts[0] + ", " + Join(ts[1..]);
      assert t[|ts[0]|] == ',';
    }
  }

  lemma FormEnds(t: string, f: Form)
    requires HasForm(t, f)
    ensures t != "" && t[0] != '[' && t[|t| - 1] != ']'
  {
    if f.Bare? {
      assert BareChar(t[0]) && BareChar(t[|t| - 1]);
    }
  }

  /** Values with commas between them are read as a list: in brackets, without brackets, and when the
      closing bracket is missing. */
  lemma ListIsSplit(ts: seq<string>, fs: seq<Form>)
    requires |ts| >= 2 && AllForms(ts, fs)
    ensures ReadItems(Join(ts)) == ts && ReadItems("[" + Join(ts) + "]") == ts && ReadItems("[" + Join(ts)) == ts
  {
    hide Join, AllForms, Split;
    JoinEnds(ts, fs);
    SplitJoined(ts, fs);
    var closed, open := "[" + Join(ts) + "]", "[" + Join(ts);
    assert closed[1..|closed| - 1] == Join(ts) && open[1..] == Join(ts) && open[|open| - 1] == Join(ts)[|Join(ts)| - 1];
  }

  /** A list as people write it, 1, 2, 3, gives all of its values. */
  lemma ListRoundTrip(args: seq<string>, numeric: string -> bool, disable: bool, many: bool)
    requires |args| >= 2 && forall i :: 0 <= i < |args| ==> Bytes(args[i]) && !IsMultiLine(args[i], disable)
    ensures ReadValue(Join(Converted(args, numeric, disable)), many) == Ok(args)
  {
    var ts := Converted(args, numeric, disable);
    var fs := ReadConverted(args, ts, numeric, disable, many);
    ListIsSplit(ts, fs);
  }

  function BlankJoin(ts: seq<string>): string
  {
    if ts == [] then "" else if |ts| == 1 then ts[0] else ts[0] + " " + BlankJoin(ts[1..])
  }

  lemma SplitAtBlank(t: string, f: Form, rest: string)
    requires HasForm(t, f)
    ensures SplitOne(t + " " + rest, '\0') == (t, rest) && SplitOne(t, '\0') == (t, "")
  {
    var str := t + " " + rest;
    assert str[0] == t[0] && str[|t|] == ' ' && str[|t| + 1..] == rest && str[..|t|] == t;
    if f.Bare? {
      assert forall i :: 0 <= i < |t| ==> str[i] == t[i] && BareChar(t[i]);
      FindDelimiterIs(str, '\0', |t|);
    } else {
      CloseValue(str, 0, t, f);
      CloseValue(t, 0, t, f);
    }
  }

  lemma {:induction false} BlankJoinTight(ts: seq<string>, fs: seq<Form>)
    requires ts != [] && AllForms(ts, fs)
    ensures Tight(BlankJoin(ts)) && BlankJoin(ts)[0] != '[' && (|ts| > 1 ==> ' ' in BlankJoin(ts))
  {
    FormIsTight(ts[0], fs[0]);
    FormEnds(ts[0], fs[0]);
    if |ts| > 1 {
      BlankJoinTight(ts[1..], fs[1..]);
      assert (ts[0] + " " + BlankJoin(ts[1..]))[|ts[0]|] == ' ';
    }
  }

  lemma {:induction false} BlanksSplit(ts: seq<string>, fs: seq<Form>)
    requires ts != [] && AllForms(ts, fs)
    ensures SplitTrimmed(BlankJoin(ts), '\0') == ts
  {
    hide HasForm, SplitOne, Trim;
    BlankJoinTight(ts, fs);
    if |ts| == 1 {
      SplitAtBlank(ts[0], fs[0], "");
      NothingToSplit();
      assert SplitTrimmed(ts[0], '\0') == [ts[0]] + [];
    } else {
      var rest := BlankJoin(ts[1..]);
      SplitAtBlank(ts[0], fs[0], rest);
      BlankJoinTight(ts[1..], fs[1..]);
      TrimTight(rest);
      BlanksSplit(ts[1..], fs[1..]);
      assert ts == [ts[0]] + ts[1..];
    }
  }

  lemma NothingToSplit()
    ensures SplitTrimmed(Trim(""), '\0') == []
  {
  }

  /** So do values with blanks between them, when there is no comma. */
  lemma BlanksAreSplit(ts: seq<string>, fs: seq<Form>)
    requires |ts| >= 2 && AllForms(ts, fs) && ',' !in BlankJoin(ts)
    ensures ReadItems(BlankJoin(ts)) == ts
  {
    hide AllForms, SplitTrimmed;
    BlankJoinTight(ts, fs);
    TrimTight(BlankJoin(ts));
    BlanksSplit(ts, fs);
    hide BlankJoin;
  }

  // ---- quotes and arrays ------------------------------------------------

  /** Each kind of quotes comes off. */
  lemma SingleQuoted(s: string, q: char)
    requires q == '`' || (q == '\'' && !IsBinaryEscaped("'" + s + "'"))
    ensures ProcessQuoted([q] + s + [q]) == Ok(Processed(Secondary(s), true))
  {
    hide Secondary, RemoveEscaped;
    var a := [q] + s + [q];
    assert a[0] == q && a[|a| - 1] == q && a[1..|a| - 1] == s;
    if q == '`' {
      StartsBinary(a);
    } else {
      assert a == "'" + s + "'";
    }
    hide IsBinaryEscaped;
  }

  lemma StartsBinary(a: string)
    requires a != "" && (a[0] == '`' || a[0] == '"')
    ensures !IsBinaryEscaped(a)
  {
    assert |a| >= 4 ==> a[..4][0] == a[0];
    assert |a| >= 3 ==> a[..3][0] == a[0];
  }

  /** Only in double ones escapes are removed. */
  lemma DoubleQuoted(s: string)
    ensures ProcessQuoted(Quoted(s)) ==
            if '\\' !in s then Ok(Processed(Secondary(s), true))
            else if RemoveEscaped(s).Ok? then Ok(Processed(Secondary(RemoveEscaped(s).value), true))
            else Fail(RemoveEscaped(s).error)
  {
    hide Secondary, RemoveEscaped;
    QuotedParts(s);
    StartsBinary(Quoted(s));
    hide IsBinaryEscaped, Quoted;
  }

  lemma FormAddsItself(t: string, f: Form, many: bool)
    requires HasForm(t, f)
    ensures AddResult(t, many) == [t]
  {
    FormEnds(t, f);
  }

  lemma {:induction false} FormsAdd(ts: seq<string>, fs: seq<Form>, bound: nat)
    requires AllForms(ts, fs) && forall i :: 0 <= i < |ts| ==> |ts[i]| < bound
    ensures AddResults(ts, true, bound) == ts
  {
    hide AddResult, HasForm;
    if ts != [] {
      FormEnds(ts[0], fs[0]);
      FormAddsItself(ts[0], fs[0], true);
      FormsAdd(ts[1..], fs[1..], bound);
      assert ts == [ts[0]] + ts[1..];
    }
  }

  /** A text in brackets is added as an array of its parts where an option takes several values, and
      as it is where it does not. */
  lemma ArrayIsSplit(ts: seq<string>, fs: seq<Form>)
    requires ts != [] && AllForms(ts, fs)
    ensures AddResult("[" + Join(ts) + "]", true) == ts
    ensures AddResult("[" + Join(ts) + "]", false) == ["[" + Join(ts) + "]"]
  {
    hide AllForms, Join, Split;
    JoinEnds(ts, fs);
    var text := "[" + Join(ts) + "]";
    assert text[1] == Join(ts)[0] && text[1..|text| - 1] == Join(ts);
    SplitJoined(ts, fs);
    SplitShorter(Join(ts));
    FormsAdd(ts, fs, |text|);
  }

  lemma SplitShorter(s: string)
    ensures forall i :: 0 <= i < |Split(s, ',')| ==> |Split(s, ',')[i]| <= |s|
  {
  }
}
