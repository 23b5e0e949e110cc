/** Nested brackets and quotes: what close_sequence() of ThirdParty/CLI11/CLI11.hpp takes for the partner
    of an opening bracket. */
module CliBrackets {
  import opened CliText
  import opened CliSplit

  /** A character that is no bracket and no quote, a quoted text, or parts in brackets. */
  datatype Part = Plain(c: char) | Text(quote: char, inner: string) | Nest(open: char, parts: seq<Part>)

  predicate PartOk(p: Part)
    decreases p
  {
    match p
    case Plain(c) => c !in "\"'`[(<{])>}"
    case Text(quote, inner) => quote in "\"'`" && if quote == '"' then Inside(inner) else quote !in inner
    case Nest(open, parts) => open in "[(<{" && PartsOk(parts)
  }

  predicate PartsOk(ps: seq<Part>)
    decreases ps
  {
    ps == [] || (PartOk(ps[0]) && PartsOk(ps[1..]))
  }

  /** The partners: ] for [, ) for (, > for <, } for {. */
  function Partner(open: char): char
  {
    if open == '[' then ']' else if open == '(' then ')' else if open == '<' then '>' else '}'
  }

  function Spell(p: Part): string
    decreases p
  {
    match p
    case Plain(c) => [c]
    case Text(quote, inner) => [quote] + inner + [quote]
    case Nest(open, parts) => [open] + SpellAll(parts) + [Partner(open)]
  }

  function SpellAll(ps: seq<Part>): string
    decreases ps
  {
    if ps == [] then "" else Spell(ps[0]) + SpellAll(ps[1..])
  }

  predicate Lies(t: string, str: string, loc: nat)
  {
    loc + |t| <= |str| && str[loc..loc + |t|] == t
  }

  lemma LiesBoth(a: string, b: string, str: string, loc: nat)
    requires Lies(a + b, str, loc)
    ensures Lies(a, str, loc) && Lies(b, str, loc + |a|)
  {
    assert str[loc..loc + |a|] == str[loc..loc + |a + b|][..|a|];
    assert str[loc + |a|..loc + |a + b|] == str[loc..loc + |a + b|][|a|..];
  }

  lemma LiesAtChar(c: char, str: string, loc: nat)
    requires Lies([c], str, loc)
    ensures loc < |str| && str[loc] == c
  {
    assert str[loc..loc + 1][0] == c;
  }

  /** One plain character is passed over. */
  lemma OverPlain(str: string, loc: nat, c: char, closures: string)
    requires c !in "\"'`[(<{])>}" && loc < |str| && str[loc] == c
    requires closures != "" && IsBracketCloser(closures[|closures| - 1])
    ensures CloseNest(str, loc, closures) == CloseNest(str, loc + 1, closures)
  {
  }

  /** So is a quoted text. */
  lemma OverText(str: string, loc: nat, quote: char, inner: string, closures: string)
    requires PartOk(Text(quote, inner)) && Lies(Spell(Text(quote, inner)), str, loc)
    requires closures != "" && IsBracketCloser(closures[|closures| - 1])
    ensures CloseNest(str, loc, closures) == CloseNest(str, loc + |inner| + 2, closures)
  {
    hide CloseNest, Lies, SkipQuoted;
    LiesBoth([quote] + inner, [quote], str, loc);
    LiesBoth([quote], inner, str, loc);
    LiesAtChar(quote, str, loc);
    LiesAtChar(quote, str, loc + 1 + |inner|);
    TextSkips(str, loc, quote, inner);
    QuoteSkips(str, loc, closures);
  }

  lemma TextSkips(str: string, loc: nat, quote: char, inner: string)
    requires PartOk(Text(quote, inner)) && Lies(inner, str, loc + 1) && loc + |inner| + 1 < |str|
    requires str[loc] == quote == str[loc + 1 + |inner|]
    ensures IsQuote(str[loc]) && SkipQuoted(str, loc) == loc + |inner| + 2
  {
    if quote == '"' {
      CloseStringAfter(str, loc + 1, inner);
    } else {
      FindIs(str, quote, loc + 1, loc + 1 + |inner|);
    }
  }

  lemma QuoteSkips(str: string, loc: nat, closures: string)
    requires loc < |str| && IsQuote(str[loc]) && closures != "" && IsBracketCloser(closures[|closures| - 1])
    ensures CloseNest(str, loc, closures) == CloseNest(str, SkipQuoted(str, loc), closures)
  {
  }

  /** An opening bracket opens a level, and its partner closes it. */
  lemma OverOpening(str: string, loc: nat, open: char, closures: string)
    requires open in "[(<{" && loc < |str| && str[loc] == open
    requires closures != "" && IsBracketCloser(closures[|closures| - 1])
    ensures CloseNest(str, loc, closures) == CloseNest(str, loc + 1, closures + [Partner(open)])
  {
    BracketFacts(open);
    assert closures[|closures| - 1] != open;
    hide IsOpener, IsQuote, Closer, IsBracketCloser, SkipQuoted, Partner;
  }

  lemma BracketFacts(open: char)
    requires open in "[(<{"
    ensures IsOpener(open) && !IsQuote(open) && Closer(open) == Partner(open) && !IsBracketCloser(open)
  {
  }

  lemma OverClosing(str: string, loc: nat, open: char, closures: string)
    requires open in "[(<{" && loc < |str| && str[loc] == Partner(open) && closures != ""
    ensures CloseNest(str, loc, closures + [Partner(open)]) == CloseNest(str, loc + 1, closures)
  {
    var all := closures + [Partner(open)];
    assert all[..|all| - 1] == closures && all[|all| - 1] == Partner(open);
  }

  lemma {:induction false} OverPart(str: string, loc: nat, p: Part, closures: string)
    requires PartOk(p) && Lies(Spell(p), str, loc) && closures != "" && IsBracketCloser(closures[|closures| - 1])
    ensures CloseNest(str, loc, closures) == CloseNest(str, loc + |Spell(p)|, closures)
    decreases p
  {
    hide CloseNest;
    match p
    case Plain(c) =>
      LiesAtChar(c, str, loc);
      OverPlain(str, loc, c, closures);
    case Text(quote, inner) => OverText(str, loc, quote, inner, closures);
    case Nest(open, parts) =>
      var inner, inside := SpellAll(parts), closures + [Partner(open)];
      LiesBoth([open] + inner, [Partner(open)], str, loc);
      LiesBoth([open], inner, str, loc);
      LiesAtChar(open, str, loc);
      LiesAtChar(Partner(open), str, loc + 1 + |inner|);
      OverOpening(str, loc, open, closures);
      OverParts(str, loc + 1, parts, inside);
      OverClosing(str, loc + 1 + |inner|, open, closures);
  }

  lemma {:induction false} OverParts(str: string, loc: nat, ps: seq<Part>, closures: string)
    requires PartsOk(ps) && Lies(SpellAll(ps), str, loc) && closures != "" && IsBracketCloser(closures[|closures| - 1])
    ensures CloseNest(str, loc, closures) == CloseNest(str, loc + |SpellAll(ps)|, closures)
    decreases ps
  {
    hide CloseNest, Lies;
    if ps != [] {
      LiesBoth(Spell(ps[0]), SpellAll(ps[1..]), str, loc);
      OverPart(str, loc, ps[0], closures);
      OverParts(str, loc + |Spell(ps[0])|, ps[1..], closures);
    }
  }

  /** Whatever balanced text stands in brackets, nested to any depth: the opening bracket closes at its
      own partner, whatever follows. */
  lemma BracketCloses(open: char, ps: seq<Part>, rest: string)
    requires open in "[(<{" && PartsOk(ps)
    ensures var text := Spell(Nest(open, ps));
      CloseSequence(text + rest, 0, Partner(open)) == |text| - 1 && Closer(open) == Partner(open)
  {
    var inner, str := SpellAll(ps), Spell(Nest(open, ps)) + rest;
    Layout(open, inner, Partner(open), rest);
    hide CloseNest, Lies, SpellAll;
    OverParts(str, 1, ps, [Partner(open)]);
    StopsAtPartner(str, 1 + |inner|, open);
  }

  lemma Layout(open: char, inner: string, close: char, rest: string)
    ensures var str := [open] + inner + [close] + rest;
      Lies(inner, str, 1) && str[0] == open && str[1 + |inner|] == close
  {
  }

  lemma StopsAtPartner(str: string, loc: nat, open: char)
    requires open in "[(<{" && loc < |str| && str[loc] == Partner(open)
    ensures CloseNest(str, loc, [Partner(open)]) == loc
  {
    assert [Partner(open)][..0] == "";
  }

  /** And split_up() takes the bracketed text as one element, with the delimiter behind it. */
  lemma BracketIsElement(open: char, ps: seq<Part>, delimiter: char, rest: string)
    requires open in "[(<{" && PartsOk(ps)
    ensures var text := Spell(Nest(open, ps));
      SplitOne(text, delimiter) == (text, "") && SplitOne(text + [delimiter] + rest, delimiter) == (text, rest)
  {
    var text := Spell(Nest(open, ps));
    BracketCloses(open, ps, "");
    BracketCloses(open, ps, [delimiter] + rest);
    hide CloseSequence;
    assert text + "" == text && text + ([delimiter] + rest) == text + [delimiter] + rest;
    var str := text + [delimiter] + rest;
    assert str[..|text|] == text && str[|text| + 1..] == rest && text[..|text|] == text && str[0] == text[0] == open;
  }
}
