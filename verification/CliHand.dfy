/** Values as people write them by hand: comments behind them, texts and arrays over several lines, and
    lines joined by a backslash (from_config() of ThirdParty/CLI11/CLI11.hpp). */
module CliHand {
  import opened CliText
  import opened CliEscape
  import opened CliSplit
  import opened CliConfig
  import opened CliRoundTrip
  import opened CliMultiLine
  import opened CliTables
  import opened CliBrackets

  function Triple(q: char): string { [q, q, q] }

  lemma {:induction false} LTrimOver(w: string, s: string)
    requires Blank(w) && (s == "" || !IsSpace(s[0]))
    ensures LTrim(w + s) == s
  {
    if w == "" {
      assert w + s == s;
    } else {
      assert (w + s)[1..] == w[1..] + s;
      LTrimOver(w[1..], s);
    }
  }

  lemma TripleEnds(s: string, q: char)
    requires !IsSpace(q)
    ensures RTrim(s + Triple(q)) == s + Triple(q) && HasMLString(s + Triple(q), q) && (s + Triple(q))[..|s|] == s
  {
    hide RTrim;
    BehindIs(s, Triple(q));
    NothingTrimmed(s + Triple(q));
  }

  // ---- texts over several lines -----------------------------------------

  /** Lines of text: none joins the next one, and none closes the text. */
  predicate TextLines(ls: seq<string>, q: char)
  {
    forall i :: 0 <= i < |ls| ==> !EndsIn(ls[i], '\\') && !HasMLString(RTrim(ls[i]), q)
  }

  function Gathered(item: string, first: bool, ls: seq<string>): string
  {
    if ls == [] then item else Broken(item, false, first) + Unlines(ls)
  }

  lemma {:induction false} MoreByHand(item: string, first: bool, ls: seq<string>, q: char, after: seq<string>)
    requires TextLines(ls, q) && !IsSpace(q) && q != '\\'
    ensures MoreLines(item, false, first, q, ls + [Triple(q)] + after) == Finished(Gathered(item, first, ls), q, after)
    decreases |ls|
  {
    hide RTrim, HasMLString, Finished;
    var lines := ls + [Triple(q)] + after;
    if ls == [] {
      assert lines[0] == Triple(q) && lines[1..] == after;
      TripleEnds("", q);
      assert "" + Triple(q) == Triple(q);
      ClosedAlone(item, first, q);
    } else {
      assert lines[0] == ls[0] && lines[1..] == ls[1..] + [Triple(q)] + after;
      var next := Broken(item, false, first) + ls[0];
      MoreByHand(next, false, ls[1..], q, after);
      GatheredMore(item, first, ls);
    }
  }

  lemma ClosedAlone(item: string, first: bool, q: char)
    ensures LastLine(item, false, first, Triple(q)) == item
  {
    assert item + "\n" + "" == item + "\n";
  }

  lemma GatheredMore(item: string, first: bool, ls: seq<string>)
    requires ls != []
    ensures Gathered(Broken(item, false, first) + ls[0], false, ls[1..]) == Gathered(item, first, ls)
  {
    var b := Broken(item, false, first);
    if |ls| > 1 {
      assert b + ls[0] + "\n" + Unlines(ls[1..]) == b + (ls[0] + "\n" + Unlines(ls[1..]));
    }
  }

  /** A text between triple quotes on lines of their own is the lines in between, joined by line breaks;
      the break behind the opening quotes and the one before the closing quotes do not belong to it.
      Between double quotes the escapes are removed as well. */
  lemma TextByHand(ls: seq<string>, q: char, after: seq<string>)
    requires ls != [] && TextLines(ls, q) && (q == '\'' || q == '"')
    ensures MultiLine("", q, ls + [Triple(q)] + after) ==
            if q == '\'' then Ok(Value(Unlines(ls), after))
            else if RemoveEscaped(Unlines(ls)).Ok? then Ok(Value(RemoveEscaped(Unlines(ls)).value, after))
            else Fail(RemoveEscaped(Unlines(ls)).error)
  {
    MoreByHand("", true, ls, q, after);
    hide MoreLines, RemoveEscaped, Unlines;
    assert "" + Unlines(ls) == Unlines(ls);
  }

  /** A text that closes on its first line. */
  lemma TextOnOneLine(s: string, q: char, lines: seq<string>)
    requires q == '\'' || q == '"'
    ensures MultiLine(s + Triple(q), q, lines) ==
            if q == '\'' then Ok(Value(s, lines))
            else if RemoveEscaped(s).Ok? then Ok(Value(RemoveEscaped(s).value, lines)) else Fail(RemoveEscaped(s).error)
  {
    TripleEnds(s, q);
    hide RemoveEscaped, MoreLines;
  }

  // ---- joined lines -----------------------------------------------------

  function Concat(ps: seq<string>): string
  {
    if ps == [] then "" else ps[0] + Concat(ps[1..])
  }

  /** A piece of text: it starts with a character that is no white space, and holds no line break. */
  predicate Piece(p: string)
  {
    p != "" && !IsSpace(p[0]) && '\n' !in p
  }

  /** Each piece on a line of its own behind some blanks, with a backslash or the closing quotes. */
  function JoinedLines(ps: seq<string>, ws: seq<string>, q: char): (r: seq<string>)
    requires |ps| == |ws| && ps != []
    ensures r != []
  {
    if |ps| == 1 then [ws[0] + ps[0] + Triple(q)] else [ws[0] + ps[0] + "\\"] + JoinedLines(ps[1..], ws[1..], q)
  }

  lemma SlashStays(w: string, p: string, q: char)
    requires Blank(w) && Piece(p) && q != '\\'
    ensures var line := w + p + "\\";
      !HasMLString(RTrim(line), q) && Taken(line, true) == p && Joins(line, true)
  {
    var line := w + p + "\\";
    NothingTrimmed(line);
    assert line == w + (p + "\\");
    LTrimOver(w, p + "\\");
    NothingTrimmed(p + "\\");
    assert (p + "\\")[..|p|] == p;
  }

  lemma PieceCloses(item: string, first: bool, w: string, p: string, q: char)
    requires Blank(w) && Piece(p) && !IsSpace(q)
    ensures var line := w + p + Triple(q);
      RTrim(line) == line && HasMLString(line, q) && LastLine(item, true, first, line) == item + p
  {
    TripleEnds(w + p, q);
    LTrimOver(w, p);
    assert (item + p)[|item + p| - 1] == p[|p| - 1] && p[|p| - 1] in p;
  }

  lemma {:induction false} MoreJoined(item: string, first: bool, ps: seq<string>, ws: seq<string>, q: char,
                                      after: seq<string>)
    requires |ps| == |ws| && ps != [] && !IsSpace(q) && q != '\\'
    requires forall i :: 0 <= i < |ps| ==> Piece(ps[i]) && Blank(ws[i])
    ensures MoreLines(item, true, first, q, JoinedLines(ps, ws, q) + after) == Finished(item + Concat(ps), q, after)
    decreases |ps|
  {
    hide RTrim, HasMLString, Finished, LastLine, Taken, Joins, Piece;
    var lines := JoinedLines(ps, ws, q) + after;
    if |ps| == 1 {
      assert lines[0] == ws[0] + ps[0] + Triple(q) && lines[1..] == after;
      PieceCloses(item, first, ws[0], ps[0], q);
      assert Concat(ps[1..]) == "" && item + Concat(ps) == item + ps[0];
    } else {
      var line := ws[0] + ps[0] + "\\";
      assert lines[0] == line && lines[1..] == JoinedLines(ps[1..], ws[1..], q) + after;
      SlashStays(ws[0], ps[0], q);
      MoreJoined(item + ps[0], false, ps[1..], ws[1..], q, after);
      assert item + ps[0] + Concat(ps[1..]) == item + (ps[0] + Concat(ps[1..]));
    }
  }

  /** Lines that end in a backslash are joined without the backslash, the line break, and the blanks in
      front of the next line. */
  lemma LinesJoin(start: string, ps: seq<string>, ws: seq<string>, q: char, after: seq<string>)
    requires |ps| == |ws| && ps != [] && (q == '\'' || q == '"')
    requires forall i :: 0 <= i < |ps| ==> Piece(ps[i]) && Blank(ws[i])
    ensures MultiLine(start + "\\", q, JoinedLines(ps, ws, q) + after) == Finished(start + Concat(ps), q, after)
  {
    MoreJoined(start, true, ps, ws, q, after);
    hide MoreLines, Finished;
    assert (start + "\\")[..|start|] == start;
  }

  // ---- arrays over several lines ----------------------------------------

  lemma {:induction false} BracketsGoOn(item: string, lines: seq<string>, after: seq<string>)
    requires lines != [] && !EndsIn(item, ']')
    requires forall i :: 0 <= i < |lines| ==>
      Trim(lines[i]) != "" && (EndsIn(Trim(lines[i]), ']') <==> i == |lines| - 1)
    ensures Bracketed(item, lines + after) == Value(item + Concat(Trimmed(lines)), after)
    decreases |lines|
  {
    hide Trim;
    var all, t := lines + after, Trim(lines[0]);
    assert all[0] == lines[0] && all[1..] == lines[1..] + after;
    assert (item + t)[|item + t| - 1] == t[|t| - 1];
    if |lines| == 1 {
      assert all[1..] == after && Trimmed(lines) == [t] && Concat([t]) == t + "";
      assert Bracketed(item + t, after) == Value(item + t, after);
    } else {
      BracketsGoOn(item + t, lines[1..], after);
      assert Trimmed(lines) == [t] + Trimmed(lines[1..]);
      assert item + t + Concat(Trimmed(lines[1..])) == item + (t + Concat(Trimmed(lines[1..])));
    }
  }

  function Trimmed(lines: seq<string>): seq<string>
  {
    seq(|lines|, i requires 0 <= i < |lines| => Trim(lines[i]))
  }

  // ---- comments ---------------------------------------------------------

  lemma {:induction false} RTrimReaches(s: string, i: nat)
    requires i < |s| && !IsSpace(s[i])
    ensures |RTrim(s)| > i
    decreases |s|
  {
    if IsSpace(s[|s| - 1]) {
      RTrimReaches(s[..|s| - 1], i);
    }
  }

  /** What stays of the comment when the end of the line is trimmed. */
  lemma CommentTrims(t: string, comment: string) returns (c: string)
    requires Tight(t)
    ensures Trim(t + " #" + comment) == t + " #" + c
  {
    var item := t + " #" + comment;
    assert item[0] == t[0] && item[|t| + 1] == '#';
    RTrimReaches(item, |t| + 1);
    c := RTrim(item)[|t| + 2..];
    assert item[..|t| + 2] == t + " #";
  }

  lemma TrimEnd(t: string)
    requires Tight(t)
    ensures Trim(t + " ") == t && Trim(t) == t
  {
    var s := t + " ";
    assert s[..|t|] == t && s[0] == t[0] && s[|t|] == ' ';
    assert RTrim(s) == RTrim(t);
  }

  /** Only the first element counts. */
  lemma FirstElement(t: string, comment: string, kept: string)
    requires Tight(t) && Tight(kept)
    requires forall c: string :: var first := SplitOne(t + " #" + c, '#').0; first == kept || first == kept + " "
    ensures Uncommented(t + " #" + comment) == kept
  {
    var item := t + " #" + comment;
    assert item[|t| + 1] == '#';
    var c := CommentTrims(t, comment);
    TrimEnd(kept);
    hide Trim, SplitOne, Tight;
    var str := t + " #" + c;
    assert Split(item, '#')[0] == SplitOne(str, '#').0;
  }

  /** Text without comment characters up to the comment. */
  lemma NoHash(t: string, c: string)
    requires t != "" && !IsOpener(t[0]) && '#' !in t
    ensures SplitOne(t + " #" + c, '#').0 == t + " "
  {
    var item := t + " #" + c;
    assert item[0] == t[0] && item[|t| + 1] == '#' && item[..|t| + 1] == t + " ";
    assert forall i :: 0 <= i < |t| ==> item[i] == t[i] && t[i] in t;
    FindDelimiterIs(item, '#', |t| + 1);
  }

  /** The first element of a text that starts with a quoted value is that value. */
  lemma QuotedFirst(t: string, f: Form, rest: string)
    requires HasForm(t, f) && !f.Bare?
    ensures SplitOne(t + rest, '#').0 == t
  {
    hide CloseSequence;
    var item := t + rest;
    assert item[..|t|] == t && item[0..0 + |t|] == t;
    CloseValue(item, 0, t, f);
  }

  /** A comment behind a value goes. */
  lemma CommentGoes(t: string, f: Form, comment: string)
    requires HasForm(t, f)
    ensures Uncommented(t + " #" + comment) == t
  {
    FormIsTight(t, f);
    forall c: string
      ensures var first := SplitOne(t + " #" + c, '#').0; first == t || first == t + " "
    {
      if f.Bare? {
        assert BareChar(t[0]);
        NoHash(t, c);
      } else {
        QuotedFirst(t, f, " #" + c);
        assert t + " #" + c == t + (" #" + c);
      }
    }
    FirstElement(t, comment, t);
  }

  /** So does one behind a list in brackets. */
  lemma ListKeepsClear(ts: seq<string>, fs: seq<Form>, comment: string)
    requires ts != [] && AllForms(ts, fs)
    ensures Uncommented("[" + Join(ts) + "] #" + comment) == "[" + Join(ts) + "]"
  {
    hide Join, AllForms;
    var t := "[" + Join(ts) + "]";
    assert "[" + Join(ts) + "] #" + comment == t + " #" + comment;
    forall c: string
      ensures SplitOne(t + " #" + c, '#').0 == t
    {
      var item := t + " #" + c;
      var n := |t|;
      assert item[1..1 + |Join(ts)|] == Join(ts) && item[n - 1] == ']' && item[0] == '[' && item[..n] == t;
      NestOverJoin(item, 1, ts, fs);
    }
    FirstElement(t, comment, t);
  }

  /** A list without brackets is cut at the comment if and only if its first value stands without quotes
      and no value holds the comment character; the first value alone stays where it is quoted. */
  lemma ListBeforeComment(ts: seq<string>, fs: seq<Form>, comment: string)
    requires |ts| >= 2 && AllForms(ts, fs)
    ensures Uncommented(Join(ts) + " #" + comment) == Join(ts) <==> fs[0].Bare? && '#' !in Join(ts)
    ensures !fs[0].Bare? ==> Uncommented(Join(ts) + " #" + comment) == ts[0]
  {
    hide *;
    JoinTight(ts, fs);
    JoinLonger(ts, fs);
    JoinBeforeComment(ts[0], fs[0], ", " + Join(ts[1..]), comment);
  }

  lemma JoinBeforeComment(t: string, f: Form, rest: string, comment: string)
    requires HasForm(t, f) && rest != "" && Tight(t + rest)
    ensures Uncommented(t + rest + " #" + comment) == t + rest <==> f.Bare? && '#' !in t + rest
    ensures !f.Bare? ==> Uncommented(t + rest + " #" + comment) == t
  {
    hide Uncommented;
    if !f.Bare? {
      QuotedBeforeComment(t, f, rest, comment);
      assert |t + rest| > |t|;
    } else {
      BareOpens(t, rest);
      hide HasForm;
      if '#' !in t + rest {
        BareBeforeComment(t + rest, comment);
      } else {
        CutAtHash(t + rest, comment);
      }
    }
  }

  lemma BareOpens(t: string, rest: string)
    requires HasForm(t, Bare)
    ensures t != "" && !IsOpener((t + rest)[0]) && (t + rest)[0] != '[' && !IsQuote((t + rest)[0])
  {
    assert BareChar(t[0]);
  }

  lemma QuotedBeforeComment(t: string, f: Form, rest: string, comment: string)
    requires HasForm(t, f) && !f.Bare? && Tight(t + rest)
    ensures Uncommented(t + rest + " #" + comment) == t
  {
    FormIsTight(t, f);
    forall c: string
      ensures SplitOne(t + rest + " #" + c, '#').0 == t
    {
      QuotedFirst(t, f, rest + " #" + c);
      assert t + rest + " #" + c == t + (rest + " #" + c);
    }
    FirstElement(t + rest, comment, t);
  }

  lemma JoinLonger(ts: seq<string>, fs: seq<Form>)
    requires |ts| >= 2 && AllForms(ts, fs)
    ensures Join(ts) == ts[0] + (", " + Join(ts[1..])) && |ts| == |fs| && HasForm(ts[0], fs[0])
  {
    assert ts[0] + ", " + Join(ts[1..]) == ts[0] + (", " + Join(ts[1..]));
  }

  lemma BareBeforeComment(t: string, comment: string)
    requires Tight(t) && !IsOpener(t[0]) && '#' !in t
    ensures Uncommented(t + " #" + comment) == t
  {
    forall c: string
      ensures SplitOne(t + " #" + c, '#').0 == t + " "
    {
      NoHash(t, c);
    }
    FirstElement(t, comment, t);
  }

  lemma CutAtHash(t: string, comment: string)
    requires Tight(t) && !IsOpener(t[0]) && '#' in t
    ensures '#' !in Uncommented(t + " #" + comment)
  {
    var item := t + " #" + comment;
    assert item[|t| + 1] == '#';
    var c := CommentTrims(t, comment);
    var str := t + " #" + c;
    assert str[0] == t[0] && str[|t| + 1] == '#';
    var first := SplitOne(str, '#').0;
    assert '#' !in first;
    assert Split(item, '#')[0] == first;
    var a, b := TrimCuts(first);
  }

  /** An entry is read as if the comment behind its value were not there. */
  lemma ReadsWithoutComment(v: string, comment: string, lines: seq<string>, many: bool)
    requires Tight(v) && !OpensMultiLine(v) && (v[0] == '[' ==> v[|v| - 1] == ']')
    requires forall c: string :: Uncommented(v + " #" + c) == v
    ensures ReadLines(v + " #" + comment, lines, many) == WithRest(ReadValue(v, many), lines)
  {
    var c := CommentTrims(v, comment);
    StillNoMultiLine(v, c);
    hide Uncommented, Trim, OpensMultiLine, ReadValue, WithRest;
    var item := v + " #" + c;
    assert Uncommented(item) == v;
    assert Bracketed(v, lines) == Value(v, lines) || v[0] != '[';
  }

  lemma StillNoMultiLine(v: string, c: string)
    requires v != "" && !OpensMultiLine(v)
    ensures !OpensMultiLine(v + " #" + c)
  {
    var item := v + " #" + c;
    if |v| >= 3 {
      assert item[..3] == v[..3];
    } else {
      assert item[|v|] == ' ';
    }
  }

  /** One value with a comment behind it. */
  lemma CommentedEntry(t: string, f: Form, comment: string, lines: seq<string>, many: bool)
    requires HasForm(t, f)
    ensures ReadLines(t + " #" + comment, lines, many) == WithRest(ReadValue(t, many), lines)
  {
    FormIsTight(t, f);
    FormEnds(t, f);
    OneLineForms(t, f);
    forall c: string
      ensures Uncommented(t + " #" + c) == t
    {
      CommentGoes(t, f, c);
    }
    ReadsWithoutComment(t, comment, lines, many);
  }

  /** A list with a comment behind it: in brackets always, and without them when it is not cut. */
  lemma CommentedList(ts: seq<string>, fs: seq<Form>, comment: string, lines: seq<string>, many: bool)
    requires |ts| >= 2 && AllForms(ts, fs)
    ensures ReadLines("[" + Join(ts) + "] #" + comment, lines, many) == WithRest(ReadTexts(ts, many), lines)
    ensures fs[0].Bare? && '#' !in Join(ts) ==>
      ReadLines(Join(ts) + " #" + comment, lines, many) == WithRest(ReadTexts(ts, many), lines)
  {
    ListIsSplit(ts, fs);
    CommentedBrackets(ts, fs, comment, lines, many);
    hide *;
    if fs[0].Bare? && '#' !in Join(ts) {
      CommentedBare(ts, fs, comment, lines, many);
    }
  }

  lemma CommentedBrackets(ts: seq<string>, fs: seq<Form>, comment: string, lines: seq<string>, many: bool)
    requires |ts| >= 2 && AllForms(ts, fs) && ReadItems("[" + Join(ts) + "]") == ts
    ensures ReadLines("[" + Join(ts) + "] #" + comment, lines, many) == WithRest(ReadTexts(ts, many), lines)
  {
    hide *;
    var list := "[" + Join(ts) + "]";
    BracketsTight(Join(ts));
    forall c: string
      ensures Uncommented(list + " #" + c) == list
    {
      ListKeepsClear(ts, fs, c);
      assert "[" + Join(ts) + "] #" + c == list + " #" + c;
    }
    ReadsWithoutComment(list, comment, lines, many);
    assert "[" + Join(ts) + "] #" + comment == list + " #" + comment;
    ReadsItems(list, ts, many);
  }

  lemma BracketsTight(s: string)
    ensures var list := "[" + s + "]";
      Tight(list) && !OpensMultiLine(list) && list[|list| - 1] == ']'
  {
    NoQuoteFirst("[" + s + "]");
  }

  lemma ReadsItems(v: string, ts: seq<string>, many: bool)
    requires ReadItems(v) == ts
    ensures ReadValue(v, many) == ReadTexts(ts, many)
  {
    hide ReadItems;
  }

  lemma CommentedBare(ts: seq<string>, fs: seq<Form>, comment: string, lines: seq<string>, many: bool)
    requires |ts| >= 2 && AllForms(ts, fs) && ReadItems(Join(ts)) == ts
    requires |fs| > 0 && fs[0].Bare? && '#' !in Join(ts)
    ensures ReadLines(Join(ts) + " #" + comment, lines, many) == WithRest(ReadTexts(ts, many), lines)
  {
    hide *;
    var list := Join(ts);
    JoinTight(ts, fs);
    JoinLonger(ts, fs);
    BareOpens(ts[0], ", " + Join(ts[1..]));
    NoQuoteFirst(list);
    forall c: string
      ensures Uncommented(list + " #" + c) == list
    {
      ListBeforeComment(ts, fs, c);
    }
    ReadsWithoutComment(list, comment, lines, many);
    ReadsItems(list, ts, many);
  }

  lemma NoQuoteFirst(v: string)
    requires v != "" && !IsQuote(v[0])
    ensures !OpensMultiLine(v)
  {
  }

  // ---- blanks and gaps --------------------------------------------------

  /** Any white space separates, when there is a blank somewhere. */
  function Spaced(ts: seq<string>, ws: seq<string>): string
    requires |ts| == |ws|
  {
    if ts == [] then "" else if |ts| == 1 then ts[0] else ts[0] + ws[0] + Spaced(ts[1..], ws[1..])
  }

  lemma SplitAtSpace(t: string, f: Form, w: string, rest: string)
    requires HasForm(t, f) && w != "" && Blank(w)
    ensures SplitOne(t + w + rest, '\0') == (t, w[1..] + rest)
  {
    hide CloseSequence;
    var str := t + w + rest;
    assert str[0] == t[0] && str[|t|] == w[0] && str[|t| + 1..] == w[1..] + rest && str[..|t|] == t;
    if f.Bare? {
      assert forall i :: 0 <= i < |t| ==> str[i] == t[i] && BareChar(t[i]);
      FindDelimiterIs(str, '\0', |t|);
    } else {
      assert str[0..0 + |t|] == t;
      CloseValue(str, 0, t, f);
    }
  }

  lemma {:induction false} SpacedTight(ts: seq<string>, fs: seq<Form>, ws: seq<string>)
    requires ts != [] && AllForms(ts, fs) && |ts| == |ws|
    ensures Tight(Spaced(ts, ws)) && Spaced(ts, ws)[0] != '['
  {
    FormIsTight(ts[0], fs[0]);
    FormEnds(ts[0], fs[0]);
    if |ts| > 1 {
      SpacedTight(ts[1..], fs[1..], ws[1..]);
    }
  }

  lemma {:induction false} SpacesSplit(ts: seq<string>, fs: seq<Form>, ws: seq<string>)
    requires ts != [] && AllForms(ts, fs) && |ts| == |ws| && forall i :: 0 <= i < |ws| ==> ws[i] != "" && Blank(ws[i])
    ensures SplitTrimmed(Spaced(ts, ws), '\0') == ts
  {
    hide HasForm, SplitOne, Trim, Blank, Tight;
    SpacedTight(ts, fs, ws);
    if |ts| == 1 {
      SplitAtBlank(ts[0], fs[0], "");
      NothingToSplit();
      TightIsSome(ts[0]);
      assert SplitTrimmed(ts[0], '\0') == [ts[0]] + [];
    } else {
      var rest := Spaced(ts[1..], ws[1..]);
      SplitAtSpace(ts[0], fs[0], ws[0], rest);
      SpacedTight(ts[1..], fs[1..], ws[1..]);
      TrimsBlank(ws[0], rest);
      SpacesSplit(ts[1..], fs[1..], ws[1..]);
      TightIsSome(Spaced(ts, ws));
      assert ts == [ts[0]] + ts[1..];
    }
  }

  lemma TightIsSome(s: string)
    requires Tight(s)
    ensures s != ""
  {
  }

  lemma TrimsBlank(w: string, rest: string)
    requires w != "" && Blank(w) && Tight(rest)
    ensures Trim(w[1..] + rest) == rest
  {
    LTrimOver(w[1..], rest);
    TrimEnd(rest);
  }

  lemma MixedBlanksSplit(ts: seq<string>, fs: seq<Form>, ws: seq<string>)
    requires |ts| >= 2 && AllForms(ts, fs) && |ts| == |ws| && forall i :: 0 <= i < |ws| ==> ws[i] != "" && Blank(ws[i])
    requires var line := Spaced(ts, ws); ',' !in line && ' ' in line
    ensures ReadItems(Spaced(ts, ws)) == ts
  {
    SpacedTight(ts, fs, ws);
    TrimEnd(Spaced(ts, ws));
    SpacesSplit(ts, fs, ws);
    hide *;
  }

  lemma NoParts()
    ensures AddResult("[]", true) == []
  {
    assert "[]"[1..1] == "" && Split("", ',') == [];
  }

  /** Gaps in an array give nothing. */
  lemma GapsGiveNothing(ts: seq<string>, fs: seq<Form>)
    requires ts != [] && AllForms(ts, fs)
    ensures AddResult("[]", true) == [] && AddResult("[" + (", " + Join(ts)) + "]", true) == ts
  {
    hide *;
    NoParts();
    JoinTight(ts, fs);
    SplitJoin(ts, fs);
    GapSplit(Join(ts), ts);
    OneGap(", " + Join(ts), ts, fs);
  }

  lemma OneGap(inner: string, ts: seq<string>, fs: seq<Form>)
    requires AllForms(ts, fs) && inner != "" && inner[0] != '[' && Split(inner, ',') == [""] + ts
    ensures AddResult("[" + inner + "]", true) == ts
  {
    hide *;
    SplitShorter(inner);
    ArrayText(inner);
    var bound := |"[" + inner + "]"|;
    assert forall i :: 0 <= i < |ts| ==> ts[i] == Split(inner, ',')[i + 1];
    FormsAdd(ts, fs, bound);
    GapAdds(ts, bound);
  }

  lemma GapSplit(s: string, ts: seq<string>)
    requires Tight(s) && SplitTrimmed(s, ',') == ts
    ensures Split(", " + s, ',') == [""] + ts
  {
    var gap := ", " + s;
    assert gap[1..] == " " + s && gap[0] == ',' && gap[|gap| - 1] == s[|s| - 1];
    TrimTight(s);
    TrimTight(gap);
    AtGap(gap);
    hide SplitOne, Trim, Tight, IsSpace;
  }

  lemma AtGap(s: string)
    requires s != "" && s[0] == ','
    ensures SplitOne(s, ',') == ("", s[1..])
  {
  }

  lemma GapAdds(ts: seq<string>, bound: nat)
    requires bound > 0 && forall i :: 0 <= i < |ts| ==> |ts[i]| < bound
    ensures AddResults([""] + ts, true, bound) == AddResults(ts, true, bound)
  {
    hide AddResult;
    assert ([""] + ts)[1..] == ts;
  }

  lemma ArrayText(inner: string)
    requires inner != "" && inner[0] != '['
    ensures var text := "[" + inner + "]";
      AddResult(text, true) == AddResults(Split(inner, ','), true, |text|)
  {
    hide Split;
    var text := "[" + inner + "]";
    assert text[1] == inner[0] && text[1..|text| - 1] == inner;
  }
}
