/** Section markers of a configuration file: from_config() of ThirdParty/CLI11/CLI11.hpp emits a
    "++" item when a section opens and a "--" item when it closes.

    A section is the list of its segments; the default section is the empty list. */
module CliSections {

  datatype ConfigItem = ConfigItem(parents: seq<string>, name: string, inputs: seq<string>)

  /** A section header, or an option line with its own sub-section, name and values. */
  datatype Line = Header(section: seq<string>) | Entry(sub: seq<string>, name: string, inputs: seq<string>)

  function Opening(section: seq<string>): ConfigItem
  {
    ConfigItem(section, "++", [])
  }

  function Closing(section: seq<string>): ConfigItem
  {
    ConfigItem(section, "--", [])
  }

  /** Close the prefixes of `p` of the lengths hi, hi - 1, ..., lo. */
  function Closings(p: seq<string>, hi: nat, lo: nat): seq<ConfigItem>
    requires hi <= |p|
  {
    if hi < lo || hi == 0 then [] else [Closing(p[..hi])] + Closings(p, hi - 1, lo)
  }

  /** Open the prefixes of `p` of the lengths lo, lo + 1, ..., hi. */
  function Openings(p: seq<string>, lo: nat, hi: nat): seq<ConfigItem>
    requires hi <= |p|
    decreases hi
  {
    if hi < lo || hi == 0 then [] else Openings(p, lo, hi - 1) + [Opening(p[..hi])]
  }

  /** Length of the longest common prefix. */
  function Common(a: seq<string>, b: seq<string>): (c: nat)
    ensures c <= |a| && c <= |b| && a[..c] == b[..c]
    ensures c < |a| && c < |b| ==> a[c] != b[c]
  {
    if a == [] || b == [] || a[0] != b[0] then 0 else
      assert a[..1 + Common(a[1..], b[1..])] == [a[0]] + a[1..][..Common(a[1..], b[1..])];
      assert b[..1 + Common(a[1..], b[1..])] == [b[0]] + b[1..][..Common(a[1..], b[1..])];
      1 + Common(a[1..], b[1..])
  }

  predicate EndsClosed(output: seq<ConfigItem>)
  {
    output != [] && output[|output| - 1].name == "--"
  }

  function Last(output: seq<ConfigItem>): ConfigItem
    requires output != []
  {
    output[|output| - 1]
  }

  /** The marker items written on the way from section `v` to section `q`: close what lies
      outside the shared proper prefix, then open the rest. */
  function Transition(v: seq<string>, q: seq<string>): seq<ConfigItem>
    requires q != []
  {
    var c := Common(v, q[..|q| - 1]);
    Closings(v, |v|, c + 1) + Openings(q, c + 1, |q|)
  }

  /** checkParentSegments(): when the last item closes a section, it is taken as the start of the way. */
  function Checked(output: seq<ConfigItem>, q: seq<string>): seq<ConfigItem>
    requires q != []
  {
    if EndsClosed(output) then output[..|output| - 1] + Transition(Last(output).parents, q)
    else output + Transition([], q)
  }

  /** One closing item more. */
  lemma {:induction false} ClosingsSnoc(p: seq<string>, hi: nat, n: nat)
    requires 1 < n <= hi <= |p|
    ensures Closings(p, hi, n - 1) == Closings(p, hi, n) + [Closing(p[..n - 1])]
  {
    if hi > n {
      ClosingsSnoc(p, hi - 1, n);
    } else {
      assert Closings(p, n - 1, n - 1) == [Closing(p[..n - 1])] + [];
      assert Closings(p, n - 1, n) == [];
    }
  }

  /** The output is `base` followed by the closing of `v` down to the prefix of length `n`. */
  ghost predicate ClosedDown(output: seq<ConfigItem>, base: seq<ConfigItem>, v: seq<string>, n: nat)
  {
    1 <= n <= |v| && output == base + Closings(v, |v|, n) && output != [] && Last(output) == Closing(v[..n])
  }

  lemma {:induction false} LastClosing(p: seq<string>, hi: nat, n: nat)
    requires 1 <= n <= hi <= |p|
    ensures var cs := Closings(p, hi, n); cs != [] && Last(cs) == Closing(p[..n])
    ensures Closings(p, hi, n)[..|Closings(p, hi, n)| - 1] == Closings(p, hi, n + 1)
  {
    if hi > n {
      LastClosing(p, hi - 1, n);
    } else {
      assert Closings(p, hi - 1, n) == [];
    }
  }

  /** The while loops of checkParentSegments(): repeat the last closing item, each time without
      its last segment, while it is longer than `length`. */
  method CloseDown(before: seq<ConfigItem>, length: nat, ghost base: seq<ConfigItem>, ghost v: seq<string>,
                   ghost n0: nat)
    returns (output: seq<ConfigItem>, ghost n: nat)
    requires ClosedDown(before, base, v, n0) && length >= 1
    ensures n == (if n0 < length then n0 else length) && ClosedDown(output, base, v, n)
  {
    output, n := before, n0;
    while |Last(output).parents| > length
      invariant ClosedDown(output, base, v, n) && n <= n0 && (n >= length || n == n0)
      decreases n
    {
      var last := Last(output);
      ClosingsSnoc(v, |v|, n);
      assert v[..n][..n - 1] == v[..n - 1];
      output := output + [last.(parents := last.parents[..|last.parents| - 1])];
      n := n - 1;
    }
  }

  method OpenUp(before: seq<ConfigItem>, q: seq<string>, lo: nat, hi: nat) returns (output: seq<ConfigItem>)
    requires lo <= hi <= |q|
    ensures output == before + Openings(q, lo + 1, hi)
  {
    output := before;
    for ii := lo to hi
      invariant output == before + Openings(q, lo + 1, ii)
    {
      output := output + [Opening(q[..ii + 1])];
    }
  }

  method CommonLoop(a: seq<string>, b: seq<string>) returns (common: nat, mpair: nat)
    ensures common == Common(a, b) && mpair == if |a| < |b| then |a| else |b|
  {
    mpair := if |a| < |b| then |a| else |b|;
    common := 0;
    var ii := 0;
    while ii < mpair
      invariant ii == common <= mpair
      invariant Common(a, b) == common + Common(a[common..], b[common..])
    {
      if a[ii] != b[ii] {
        break;
      }
      assert a[common..][1..] == a[common + 1..] && b[common..][1..] == b[common + 1..];
      common := common + 1;
      ii := ii + 1;
    }
  }

  lemma CommonOfPrefix(v: seq<string>, n: nat, f: seq<string>)
    requires n <= |v| && (|f| <= n || n == |v|)
    ensures Common(v[..n], f) == Common(v, f)
  {
    assert n == |v| ==> v[..n] == v;
    var c := Common(v[..n], f);
    CommonIs(v, f, c);
  }

  lemma {:induction false} CommonIs(a: seq<string>, b: seq<string>, c: nat)
    requires c <= |a| && c <= |b| && a[..c] == b[..c]
    requires c < |a| && c < |b| ==> a[c] != b[c]
    ensures Common(a, b) == c
    decreases c
  {
    if c > 0 {
      assert a[0] == a[..c][0] == b[..c][0] == b[0];
      assert a[1..][..c - 1] == a[..c][1..] && b[1..][..c - 1] == b[..c][1..];
      CommonIs(a[1..], b[1..], c - 1);
    }
  }

  /** The comparison with the new section: drop the last closing item when its section stays
      open, else close down to the level behind the common part. */
  method CloseToCommon(before: seq<ConfigItem>, front: seq<string>, ghost base: seq<ConfigItem>, ghost v: seq<string>,
                       ghost n: nat)
    returns (output: seq<ConfigItem>, common: nat)
    requires ClosedDown(before, base, v, n) && (|front| <= n || n == |v|) && (n <= |front| || n == 1)
    requires front != []
    ensures common == Common(v, front) && output == base + Closings(v, |v|, common + 1)
  {
    var mpair;
    common, mpair := CommonLoop(Last(before).parents, front);
    CommonOfPrefix(v, n, front);
    output := before;
    if common == mpair {
      LastClosing(v, |v|, n);
      output := output[..|output| - 1];
    } else {
      ghost var m;
      output, m := CloseDown(output, common + 1, base, v, n);
    }
  }

  /** Where closing starts: only the innermost level is closed. */
  lemma AllOpen(before: seq<ConfigItem>)
    requires EndsClosed(before) && Last(before).parents != [] && Last(before).inputs == []
    ensures ClosedDown(before, before[..|before| - 1], Last(before).parents, |Last(before).parents|)
  {
    var v := Last(before).parents;
    var n := |v|;
    assert Closings(v, n, n) == [Closing(v[..n])] + [] && v[..n] == v;
    assert before == before[..|before| - 1] + [Last(before)];
  }

  lemma OpeningsLast(q: seq<string>, lo: nat)
    requires q != [] && lo <= |q|
    ensures Openings(q, lo, |q|) == Openings(q, lo, |q| - 1) + [Opening(q)]
    ensures lo == |q| ==> Openings(q, lo, |q| - 1) == []
  {
    assert q[..|q|] == q;
  }

  /** The branch taken when the output ends with the closing of the previous section. */
  method CloseAndReopen(before: seq<ConfigItem>, q: seq<string>) returns (output: seq<ConfigItem>)
    requires q != [] && EndsClosed(before) && Last(before).parents != [] && Last(before).inputs == []
    ensures output + [Opening(q)] == before[..|before| - 1] + Transition(Last(before).parents, q)
  {
    hide Common, Openings, Closings;
    ghost var base, v := before[..|before| - 1], Last(before).parents;
    ghost var n := |v|;
    ghost var c := Common(v, q[..|q| - 1]);
    AllOpen(before);
    OpeningsLast(q, c + 1);
    var msize := if |q| > 1 then |q| else 2;
    output, n := CloseDown(before, msize - 1, base, v, n);
    if |q| > 1 {
      var common;
      output, common := CloseToCommon(output, q[..|q| - 1], base, v, n);
      output := OpenUp(output, q, common, |q| - 1);
    }
    assert output == base + Closings(v, |v|, c + 1) + Openings(q, c + 1, |q| - 1);
  }

  method CheckParentSegments(before: seq<ConfigItem>, q: seq<string>) returns (output: seq<ConfigItem>)
    requires q != [] && (EndsClosed(before) ==> Last(before).parents != [] && Last(before).inputs == [])
    ensures output == Checked(before, q)
  {
    output := before;
    if EndsClosed(output) {
      output := CloseAndReopen(output, q);
    } else {
      if |q| > 1 {
        output := OpenUp(output, q, 0, |q| - 1);
      }
      assert q[..|q|] == q;
      assert Transition([], q) == [] + Openings(q, 1, |q|);
      assert Openings(q, 1, |q|) == Openings(q, 1, |q| - 1) + [Opening(q)];
    }
    output := output + [Opening(q)];
  }

  // ---- whole files ------------------------------------------------------

  /** find_matching_config() without duplicate search: only the last item can match. */
  predicate Matches(output: seq<ConfigItem>, item: ConfigItem)
  {
    output != [] && Last(output).parents == item.parents && Last(output).name == item.name
  }

  const SEPARATOR: string := "%%"

  /** Two value lists of more than one value each are kept apart by a separator, unless there is an
      empty value or a separator where they meet. */
  predicate Separated(a: seq<string>, b: seq<string>)
  {
    |a| > 1 && |b| > 1 && !(a[|a| - 1] == "" || b[0] == "" || a[|a| - 1] == SEPARATOR || b[0] == SEPARATOR)
  }

  /** The values of an option that is repeated. */
  function Merged(a: seq<string>, b: seq<string>): seq<string>
  {
    if Separated(a, b) then a + [SEPARATOR] + b else a + b
  }

  function AddEntry(output: seq<ConfigItem>, item: ConfigItem): seq<ConfigItem>
  {
    if Matches(output, item) then
      output[..|output| - 1] + [Last(output).(inputs := Merged(Last(output).inputs, item.inputs))]
    else output + [item]
  }

  /** The values of an option that stands in the file once for each group. */
  function Repeated(groups: seq<seq<string>>): seq<string>
    requires groups != []
  {
    var n := |groups| - 1;
    if n == 0 then groups[0] else Merged(Repeated(groups[..n]), groups[n])
  }

  /** The values between the separators. */
  function Groups(inputs: seq<string>): (r: seq<seq<string>>)
    ensures r != []
  {
    if inputs == [] then [[]] else
      var n := |inputs| - 1;
      var before := Groups(inputs[..n]);
      if inputs[n] == SEPARATOR then before + [[]]
      else before[..|before| - 1] + [before[|before| - 1] + [inputs[n]]]
  }

  lemma GroupsMore(a: seq<string>, x: string)
    ensures var before := Groups(a);
      Groups(a + [x]) == if x == SEPARATOR then before + [[]] else before[..|before| - 1] + [before[|before| - 1] + [x]]
  {
    assert (a + [x])[..|a|] == a;
  }

  lemma {:induction false} GroupsConcat(a: seq<string>, b: seq<string>)
    requires SEPARATOR !in b
    ensures Groups(a + [SEPARATOR] + b) == Groups(a) + [b]
    decreases |b|
  {
    hide Groups;
    if b == [] {
      GroupsMore(a, SEPARATOR);
      assert a + [SEPARATOR] + b == a + [SEPARATOR];
    } else {
      var n := |b| - 1;
      GroupsConcat(a, b[..n]);
      GroupsMore(a + [SEPARATOR] + b[..n], b[n]);
      assert a + [SEPARATOR] + b == a + [SEPARATOR] + b[..n] + [b[n]];
      assert b == b[..n] + [b[n]];
    }
  }

  lemma {:induction false} OneGroup(a: seq<string>)
    requires SEPARATOR !in a
    ensures Groups(a) == [a]
  {
    if a != [] {
      var n := |a| - 1;
      OneGroup(a[..n]);
      GroupsMore(a[..n], a[n]);
      assert a == a[..n] + [a[n]];
    }
  }

  /** A group that can be told from its neighbours. */
  predicate GroupOk(g: seq<string>)
  {
    |g| > 1 && SEPARATOR !in g && g[0] != "" && g[|g| - 1] != ""
  }

  lemma {:induction false} RepeatsApart(groups: seq<seq<string>>, g: seq<string>)
    requires groups != [] && GroupOk(g) && forall i :: 0 <= i < |groups| ==> GroupOk(groups[i])
    ensures Separated(Repeated(groups), g)
    decreases |groups|
  {
    var n := |groups| - 1;
    assert GroupOk(groups[n]);
    if n > 0 {
      RepeatsApart(groups[..n], groups[n]);
    }
  }

  /** However often an option with several values is repeated, its groups stay apart. */
  lemma {:induction false} RepeatsKeepGroups(groups: seq<seq<string>>)
    requires groups != [] && forall i :: 0 <= i < |groups| ==> GroupOk(groups[i])
    ensures Groups(Repeated(groups)) == groups
    decreases |groups|
  {
    hide Groups, Separated;
    var n := |groups| - 1;
    assert GroupOk(groups[n]);
    if n == 0 {
      OneGroup(groups[0]);
    } else {
      var before := groups[..n];
      RepeatsKeepGroups(before);
      RepeatsApart(before, groups[n]);
      GroupsConcat(Repeated(before), groups[n]);
      assert groups == before + [groups[n]];
    }
  }

  /** The end of the loop body of from_config(). */
  method MergeEntry(before: seq<ConfigItem>, item: ConfigItem) returns (output: seq<ConfigItem>)
    ensures output == AddEntry(before, item)
  {
    if !Matches(before, item) {
      return before + [item];
    }
    var last := Last(before);
    var inputs := last.inputs;
    if |inputs| > 1 && |item.inputs| > 1 {
      var back, front := inputs[|inputs| - 1], item.inputs[0];
      if !(back == "" || front == "" || back == SEPARATOR || front == SEPARATOR) {
        inputs := inputs + [SEPARATOR];
      }
    }
    output := before[..|before| - 1] + [last.(inputs := inputs + item.inputs)];
  }

  /** What from_config() has in hand between two lines. */
  datatype State = State(output: seq<ConfigItem>, current: seq<string>)

  const START: State := State([], [])

  function Leave(s: State): seq<ConfigItem>
  {
    if s.current == [] then s.output else s.output + [Closing(s.current)]
  }

  function OnLine(s: State, line: Line): State
  {
    match line
    case Header(section) => State(if section == [] then Leave(s) else Checked(Leave(s), section), section)
    case Entry(sub, name, inputs) => s.(output := AddEntry(s.output, ConfigItem(s.current + sub, name, inputs)))
  }

  function OnLines(s: State, lines: seq<Line>): State
    decreases |lines|
  {
    if lines == [] then s else OnLines(OnLine(s, lines[0]), lines[1..])
  }

  function Parsed(lines: seq<Line>): seq<ConfigItem>
  {
    var s := OnLines(START, lines);
    s.output + Closings(s.current, |s.current|, 1)
  }

  /** Option names are not the markers. */
  predicate LineOk(line: Line)
  {
    line.Entry? ==> line.name != "++" && line.name != "--"
  }

  /** Items that close a section name one and carry no values. */
  predicate Markers(output: seq<ConfigItem>)
  {
    forall i :: 0 <= i < |output| && (output[i].name == "--" || output[i].name == "++") ==>
      output[i].parents != [] && output[i].inputs == []
  }

  lemma {:induction false} ClosingsAreMarkers(p: seq<string>, hi: nat, lo: nat)
    requires hi <= |p|
    ensures Markers(Closings(p, hi, lo))
  {
    if hi >= lo && hi > 0 {
      ClosingsAreMarkers(p, hi - 1, lo);
    }
  }

  lemma {:induction false} OpeningsAreMarkers(p: seq<string>, lo: nat, hi: nat)
    requires hi <= |p|
    ensures Markers(Openings(p, lo, hi))
    decreases hi
  {
    if hi >= lo && hi > 0 {
      OpeningsAreMarkers(p, lo, hi - 1);
    }
  }

  lemma MarkersConcat(a: seq<ConfigItem>, b: seq<ConfigItem>)
    requires Markers(a) && Markers(b)
    ensures Markers(a + b)
  {
  }

  lemma TransitionIsMarkers(v: seq<string>, q: seq<string>)
    requires q != []
    ensures Markers(Transition(v, q))
  {
    var c := Common(v, q[..|q| - 1]);
    ClosingsAreMarkers(v, |v|, c + 1);
    OpeningsAreMarkers(q, c + 1, |q|);
    MarkersConcat(Closings(v, |v|, c + 1), Openings(q, c + 1, |q|));
  }

  lemma LineKeepsMarkers(s: State, line: Line)
    requires Markers(s.output) && LineOk(line)
    ensures Markers(OnLine(s, line).output) && Markers(Leave(s))
  {
    var out := Leave(s);
    MarkersConcat(s.output, if s.current == [] then [] else [Closing(s.current)]);
    if line.Header? {
      if line.section != [] {
        var v := if EndsClosed(out) then Last(out).parents else [];
        var base := if EndsClosed(out) then out[..|out| - 1] else out;
        TransitionIsMarkers(v, line.section);
        MarkersConcat(base, Transition(v, line.section));
      }
    } else {
      var item := ConfigItem(s.current + line.sub, line.name, line.inputs);
      if Matches(s.output, item) {
        MarkersConcat(s.output[..|s.output| - 1],
                      [Last(s.output).(inputs := Merged(Last(s.output).inputs, item.inputs))]);
      } else {
        MarkersConcat(s.output, [item]);
      }
    }
  }

  /** from_config(), as far as sections go. */
  method FromConfig(lines: seq<Line>) returns (output: seq<ConfigItem>)
    requires forall i :: 0 <= i < |lines| ==> LineOk(lines[i])
    ensures output == Parsed(lines)
  {
    output := [];
    var current := [];
    assert lines[0..] == lines;
    for i := 0 to |lines|
      invariant Markers(output) && OnLines(State(output, current), lines[i..]) == OnLines(START, lines)
    {
      LineKeepsMarkers(State(output, current), lines[i]);
      assert lines[i..][1..] == lines[i + 1..];
      match lines[i] {
        case Header(section) =>
          if current != [] {
            output := output + [Closing(current)];
          }
          current := section;
          if current != [] {
            output := CheckParentSegments(output, current);
          }
        case Entry(sub, name, inputs) =>
          var item := ConfigItem(current + sub, name, inputs);
          output := MergeEntry(output, item);
      }
    }
    if current != [] {
      ghost var base, v := output, current;
      output := output + [Closing(current)];
      assert Closings(v, |v|, |v|) == [Closing(v[..|v|])] + [] && v[..|v|] == v;
      ghost var n;
      output, n := CloseDown(output, 1, base, v, |v|);
    }
  }

  // ---- the walk over the section tree -----------------------------------

  /** Where a reader of the items stands: inside the section `path`, whose open ancestors are
      exactly its nonempty prefixes, or off the tree. */
  datatype Position = Broken | At(path: seq<string>)

  /** A "++" goes down one segment, a "--" closes the innermost open section, and any other
      item lies inside the open section. */
  function Move(pos: Position, item: ConfigItem): Position
  {
    if pos.Broken? then Broken
    else if item.name == "++" then
      if item.parents != [] && item.parents[..|item.parents| - 1] == pos.path then At(item.parents) else Broken
    else if item.name == "--" then
      if item.parents == pos.path && pos.path != [] then At(pos.path[..|pos.path| - 1]) else Broken
    else if pos.path <= item.parents then pos
    else Broken
  }

  function Walk(pos: Position, items: seq<ConfigItem>): Position
  {
    if items == [] then pos else Move(Walk(pos, items[..|items| - 1]), items[|items| - 1])
  }

  lemma {:induction false} WalkConcat(pos: Position, a: seq<ConfigItem>, b: seq<ConfigItem>)
    ensures Walk(pos, a + b) == Walk(Walk(pos, a), b)
    decreases |b|
  {
    if b == [] {
      assert a + b == a;
    } else {
      var n := |b| - 1;
      assert (a + b)[..|a| + n] == a + b[..n];
      WalkConcat(pos, a, b[..n]);
    }
  }

  lemma {:induction false} WalkBroken(items: seq<ConfigItem>)
    ensures Walk(Broken, items) == Broken
  {
    if items != [] {
      WalkBroken(items[..|items| - 1]);
    }
  }

  lemma {:induction false} WalkClosings(p: seq<string>, hi: nat, lo: nat)
    requires 1 <= lo <= hi + 1 && hi <= |p|
    ensures Walk(At(p[..hi]), Closings(p, hi, lo)) == At(p[..lo - 1])
  {
    if hi >= lo && hi > 0 {
      var rest := Closings(p, hi - 1, lo);
      WalkConcat(At(p[..hi]), [Closing(p[..hi])], rest);
      assert Walk(At(p[..hi]), [Closing(p[..hi])]) == Move(Walk(At(p[..hi]), []), Closing(p[..hi]));
      assert p[..hi][..hi - 1] == p[..hi - 1];
      WalkClosings(p, hi - 1, lo);
    }
  }

  lemma {:induction false} WalkOpenings(p: seq<string>, lo: nat, hi: nat)
    requires 1 <= lo <= hi + 1 && hi <= |p|
    ensures Walk(At(p[..lo - 1]), Openings(p, lo, hi)) == At(p[..hi])
    decreases hi
  {
    if hi >= lo {
      WalkOpenings(p, lo, hi - 1);
      assert p[..hi][..hi - 1] == p[..hi - 1];
    }
  }

  /** The way from one section to the next is a legal walk. */
  lemma WalkTransition(v: seq<string>, q: seq<string>)
    requires q != []
    ensures Walk(At(v), Transition(v, q)) == At(q)
  {
    hide Walk, Closings, Openings, Common;
    var c := Common(v, q[..|q| - 1]);
    WalkConcat(At(v), Closings(v, |v|, c + 1), Openings(q, c + 1, |q|));
    WalkClosings(v, |v|, c + 1);
    WalkOpenings(q, c + 1, |q|);
    Whole(v);
    Whole(q);
    SharedFront(v, q, c);
  }

  lemma Whole(p: seq<string>)
    ensures p[..|p|] == p
  {
  }

  lemma SharedFront(v: seq<string>, q: seq<string>, c: nat)
    requires q != [] && c < |q| && c <= |v| && v[..c] == q[..|q| - 1][..c]
    ensures v[..c] == q[..c]
  {
    assert q[..|q| - 1][..c] == q[..c];
  }

  lemma {:induction false} ClosingLevels(p: seq<string>, hi: nat, lo: nat)
    requires hi <= |p|
    ensures |Closings(p, hi, lo)| == if hi < lo then 0 else if lo == 0 then hi else hi + 1 - lo
    ensures forall i :: 0 <= i < |Closings(p, hi, lo)| ==> Closings(p, hi, lo)[i] == Closing(p[..hi - i])
  {
    if hi >= lo && hi > 0 {
      ClosingLevels(p, hi - 1, lo);
    }
  }

  lemma {:induction false} OpeningLevels(p: seq<string>, lo: nat, hi: nat)
    requires 1 <= lo && hi <= |p|
    ensures |Openings(p, lo, hi)| == if hi < lo then 0 else hi + 1 - lo
    ensures forall i :: 0 <= i < |Openings(p, lo, hi)| ==> Openings(p, lo, hi)[i] == Opening(p[..lo + i])
    decreases hi
  {
    if hi >= lo {
      OpeningLevels(p, lo, hi - 1);
    }
  }

  /** The way is the shortest one: with c levels shared between the old section and the parent of
      the new one, exactly the |v| - c levels outside are closed, innermost first, and exactly
      the |q| - c levels of the new section are opened, outermost first. */
  lemma TransitionIsShortest(v: seq<string>, q: seq<string>)
    requires q != []
    ensures var c, t := Common(v, q[..|q| - 1]), Transition(v, q);
      && |t| == (|v| - c) + (|q| - c)
      && (forall i :: 0 <= i < |v| - c ==> t[i] == Closing(v[..|v| - i]))
      && (forall i :: |v| - c <= i < |t| ==> t[i] == Opening(q[..c + 1 + (i - (|v| - c))]))
  {
    var c := Common(v, q[..|q| - 1]);
    ClosingLevels(v, |v|, c + 1);
    OpeningLevels(q, c + 1, |q|);
  }

  /** How far the reading is, seen from the lines alone.  Left(p): a [default] header has just
      closed the innermost level of p.  Spoiled: an option followed while levels of p were open. */
  datatype Mode = Outside | In(section: seq<string>) | Left(section: seq<string>) | Spoiled

  function NextMode(m: Mode, line: Line): Mode
  {
    match line
    case Header(q) =>
      if m.Spoiled? then m
      else if q != [] then In(q)
      else if m.In? then Left(m.section) else m
    case Entry(_, _, _) =>
      if m.Left? then (if |m.section| == 1 then Outside else Spoiled) else m
  }

  function ModeAfter(m: Mode, lines: seq<Line>): Mode
    decreases |lines|
  {
    if lines == [] then m else ModeAfter(NextMode(m, lines[0]), lines[1..])
  }

  /** After every [default] header that follows a section of two or more segments, the next line
      other than [default] is a section header. */
  predicate Tidy(lines: seq<Line>)
  {
    var m := ModeAfter(Outside, lines);
    !m.Spoiled? && (m.Left? ==> |m.section| == 1)
  }

  function Where(items: seq<ConfigItem>): Position
  {
    Walk(At([]), items)
  }

  /** The items before a closing marker at the end. */
  function Base(output: seq<ConfigItem>): seq<ConfigItem>
  {
    if EndsClosed(output) then output[..|output| - 1] else output
  }

  predicate Agrees(s: State, m: Mode)
  {
    && (s.current != [] ==> !EndsClosed(s.output))
    && match m
       case Outside => s.current == [] && !EndsClosed(s.output) && Where(s.output) == At([])
       case In(q) => q != [] && s.current == q && Where(s.output) == At(q)
       case Left(p) => p != [] && s.current == [] && EndsClosed(s.output) && Last(s.output) == Closing(p)
         && Where(Base(s.output)) == At(p)
       case Spoiled =>
         || Where(Base(s.output)) == Broken
         || (s.current == [] && !EndsClosed(s.output) && Where(s.output).At? && Where(s.output) != At([]))
  }

  lemma WalkOne(items: seq<ConfigItem>, item: ConfigItem)
    ensures Where(items + [item]) == Move(Where(items), item)
    ensures Last(items + [item]) == item && (items + [item])[..|items|] == items
  {
    assert (items + [item])[..|items|] == items;
  }

  lemma OpeningsEndOpen(q: seq<string>, v: seq<string>, base: seq<ConfigItem>)
    requires q != []
    ensures !EndsClosed(base + Transition(v, q))
  {
    var c := Common(v, q[..|q| - 1]);
    assert Transition(v, q)[|Transition(v, q)| - 1] == Opening(q[..|q|]);
  }

  /** From a level that is still open, the first opening of another way breaks the walk. */
  lemma WrongStart(pos: Position, q: seq<string>)
    requires q != [] && (pos.Broken? || pos.path != [])
    ensures Walk(pos, Transition([], q)) == Broken
  {
    assert Transition([], q) == [] + Openings(q, 1, |q|);
    OpeningsSplit(q, |q|);
    var first := Opening(q[..1]);
    assert first.parents[..0] == [] && Move(pos, first) == Broken;
    assert Transition([], q) == [first] + Openings(q, 2, |q|);
    WalkConcat(pos, [Opening(q[..1])], Openings(q, 2, |q|));
    assert [first][..0] == [] && Walk(pos, [first]) == Move(pos, first);
    WalkBroken(Openings(q, 2, |q|));
  }

  lemma {:induction false} OpeningsSplit(q: seq<string>, hi: nat)
    requires 1 <= hi <= |q|
    ensures Openings(q, 1, hi) == [Opening(q[..1])] + Openings(q, 2, hi)
    decreases hi
  {
    if hi > 1 {
      OpeningsSplit(q, hi - 1);
    } else {
      assert Openings(q, 1, 0) == [] && Openings(q, 2, 1) == [];
    }
  }

  lemma HeaderAgrees(s: State, m: Mode, q: seq<string>)
    requires Agrees(s, m) && q != []
    ensures Agrees(OnLine(s, Header(q)), NextMode(m, Header(q)))
  {
    hide Walk;
    var out := Leave(s);
    if s.current != [] {
      WalkOne(s.output, Closing(s.current));
    }
    var base := Base(out);
    var v := if EndsClosed(out) then Last(out).parents else [];
    WalkConcat(At([]), base, Transition(v, q));
    OpeningsEndOpen(q, v, base);
    if Where(base) == At(v) {
      WalkTransition(v, q);
    } else if Where(base) == Broken {
      WalkBroken(Transition(v, q));
    } else {
      WrongStart(Where(base), q);
    }
  }

  lemma DefaultAgrees(s: State, m: Mode)
    requires Agrees(s, m)
    ensures Agrees(OnLine(s, Header([])), NextMode(m, Header([])))
  {
    if s.current != [] {
      WalkOne(s.output, Closing(s.current));
    }
  }

  /** A merged item stands where the one before it stood. */
  lemma MergeAgrees(output: seq<ConfigItem>, item: ConfigItem)
    requires Matches(output, item) && item.name != "--" && item.name != "++"
    ensures var merged := AddEntry(output, item);
      merged != [] && Where(merged) == Where(output) && !EndsClosed(output) && !EndsClosed(merged)
  {
    hide Walk, Merged;
    var n := |output| - 1;
    var last := Last(output);
    assert output == output[..n] + [last];
    WalkOne(output[..n], last);
    WalkOne(output[..n], last.(inputs := Merged(last.inputs, item.inputs)));
  }

  lemma EntryAgrees(s: State, m: Mode, line: Line)
    requires Agrees(s, m) && line.Entry? && LineOk(line)
    ensures Agrees(OnLine(s, line), NextMode(m, line))
  {
    hide Walk, Merged;
    var item := ConfigItem(s.current + line.sub, line.name, line.inputs);
    var n := |s.output| - 1;
    if Matches(s.output, item) {
      MergeAgrees(s.output, item);
    } else {
      WalkOne(s.output, item);
      if EndsClosed(s.output) {
        assert s.output == s.output[..n] + [Last(s.output)];
        WalkOne(s.output[..n], Last(s.output));
      }
    }
  }

  /** At every line the position in the section tree is the one the mode tells; in particular,
      after a header of a section exactly the nonempty prefixes of that section are open. */
  lemma {:induction false} LinesAgree(s: State, m: Mode, lines: seq<Line>)
    requires Agrees(s, m) && forall i :: 0 <= i < |lines| ==> LineOk(lines[i])
    ensures Agrees(OnLines(s, lines), ModeAfter(m, lines))
    decreases |lines|
  {
    if lines != [] {
      if lines[0].Entry? {
        EntryAgrees(s, m, lines[0]);
      } else if lines[0].section == [] {
        DefaultAgrees(s, m);
      } else {
        HeaderAgrees(s, m, lines[0].section);
      }
      LinesAgree(OnLine(s, lines[0]), NextMode(m, lines[0]), lines[1..]);
    }
  }

  /** The items of a file are a complete, well-bracketed walk of the section tree exactly when
      the file is tidy. */
  lemma FileIsBracketed(lines: seq<Line>)
    requires forall i :: 0 <= i < |lines| ==> LineOk(lines[i])
    ensures Where(Parsed(lines)) == At([]) <==> Tidy(lines)
  {
    LinesAgree(START, Outside, lines);
    var s, m := OnLines(START, lines), ModeAfter(Outside, lines);
    var cs := Closings(s.current, |s.current|, 1);
    WalkConcat(At([]), s.output, cs);
    assert s.current[..|s.current|] == s.current;
    WalkClosings(s.current, |s.current|, 1);
    if EndsClosed(s.output) {
      var n := |s.output| - 1;
      assert s.output == s.output[..n] + [Last(s.output)];
      WalkOne(s.output[..n], Last(s.output));
    }
    if Where(s.output) == Broken {
      WalkBroken(cs);
    }
  }

  /** Without [default] headers the reading is never left or spoiled. */
  lemma {:induction false} NoDefaultIsTidy(m: Mode, lines: seq<Line>)
    requires m.Outside? || m.In?
    requires forall i :: 0 <= i < |lines| ==> lines[i].Header? ==> lines[i].section != []
    ensures ModeAfter(m, lines).Outside? || ModeAfter(m, lines).In?
    decreases |lines|
  {
    if lines != [] {
      NoDefaultIsTidy(NextMode(m, lines[0]), lines[1..]);
    }
  }

  /** Without [default] headers every file is a complete, well-bracketed walk. */
  lemma NoDefaultIsBracketed(lines: seq<Line>)
    requires forall i :: 0 <= i < |lines| ==> LineOk(lines[i]) && (lines[i].Header? ==> lines[i].section != [])
    ensures Where(Parsed(lines)) == At([])
  {
    NoDefaultIsTidy(Outside, lines);
    FileIsBracketed(lines);
  }

  /** The smallest file that is not: [a.b] and then [default] leaves section a open. */
  lemma DefaultLeavesParentOpen()
    ensures Where(Parsed([Header(["a", "b"]), Header([])])) == At(["a"])
  {
    var lines := [Header(["a", "b"]), Header([])];
    assert OnLines(START, lines) == OnLines(OnLine(START, lines[0]), [lines[1]]);
    assert ModeAfter(Outside, lines) == ModeAfter(In(["a", "b"]), [lines[1]]) == Left(["a", "b"]);
    LinesAgree(START, Outside, lines);
    var s := OnLines(START, lines);
    assert s.output == Base(s.output) + [Closing(["a", "b"])];
    WalkOne(Base(s.output), Closing(["a", "b"]));
    var p := ["a", "b"];
    assert Where(s.output) == At(p[..|p| - 1]) && p[..1] == ["a"];
    assert Parsed(lines) == s.output + [] == s.output;
  }

  // ---- the options of a file --------------------------------------------

  predicate IsMarker(item: ConfigItem)
  {
    item.name == "++" || item.name == "--"
  }

  /** The items that are no markers, in order. */
  function Options(output: seq<ConfigItem>): seq<ConfigItem>
  {
    if output == [] then [] else
      var n := |output| - 1;
      Options(output[..n]) + if IsMarker(output[n]) then [] else [output[n]]
  }

  lemma OptionsSnoc(output: seq<ConfigItem>, item: ConfigItem)
    ensures Options(output + [item]) == Options(output) + if IsMarker(item) then [] else [item]
  {
    assert (output + [item])[..|output|] == output;
  }

  lemma {:induction false} OptionsConcat(a: seq<ConfigItem>, b: seq<ConfigItem>)
    ensures Options(a + b) == Options(a) + Options(b)
    decreases |b|
  {
    if b == [] {
      assert a + b == a;
    } else {
      var n := |b| - 1;
      assert (a + b)[..|a| + n] == a + b[..n];
      OptionsConcat(a, b[..n]);
    }
  }

  lemma {:induction false} NoOptionsClosing(p: seq<string>, hi: nat, lo: nat)
    requires hi <= |p|
    ensures Options(Closings(p, hi, lo)) == []
  {
    if hi >= lo && hi > 0 {
      NoOptionsClosing(p, hi - 1, lo);
      OptionsConcat([Closing(p[..hi])], Closings(p, hi - 1, lo));
      OptionsSnoc([], Closing(p[..hi]));
      assert [] + [Closing(p[..hi])] == [Closing(p[..hi])];
    }
  }

  lemma {:induction false} NoOptionsOpening(p: seq<string>, lo: nat, hi: nat)
    requires hi <= |p|
    ensures Options(Openings(p, lo, hi)) == []
    decreases hi
  {
    if hi >= lo && hi > 0 {
      NoOptionsOpening(p, lo, hi - 1);
      OptionsSnoc(Openings(p, lo, hi - 1), Opening(p[..hi]));
    }
  }

  lemma NoOptionsBetween(v: seq<string>, q: seq<string>)
    requires q != []
    ensures Options(Transition(v, q)) == [] && Transition(v, q) != [] && IsMarker(Last(Transition(v, q)))
  {
    hide Options, Common;
    var c := Common(v, q[..|q| - 1]);
    NoOptionsClosing(v, |v|, c + 1);
    NoOptionsOpening(q, c + 1, |q|);
    OptionsConcat(Closings(v, |v|, c + 1), Openings(q, c + 1, |q|));
    OpeningsLast(q, c + 1);
  }

  lemma NoOptionsInBase(output: seq<ConfigItem>)
    ensures Options(Base(output)) == Options(output)
  {
    if EndsClosed(output) {
      OptionsSnoc(Base(output), Last(output));
      assert Base(output) + [Last(output)] == output;
    }
  }

  /** Moving to another section adds and drops markers only. */
  lemma NoOptionsMoving(output: seq<ConfigItem>, q: seq<string>)
    requires q != []
    ensures Options(Checked(output, q)) == Options(output) && Checked(output, q) != []
    ensures IsMarker(Last(Checked(output, q)))
  {
    hide Options, Transition;
    var v := if EndsClosed(output) then Last(output).parents else [];
    NoOptionsBetween(v, q);
    NoOptionsInBase(output);
    OptionsConcat(Base(output), Transition(v, q));
    assert Checked(output, q) == Base(output) + Transition(v, q);
  }

  /** The options read off the lines: each belongs to the section of the last header, and one that
      repeats the option just before it, with no section in between, is merged into it. */
  datatype Reading = Reading(done: seq<ConfigItem>, adjacent: bool, section: seq<string>)

  predicate Repeats(before: ConfigItem, item: ConfigItem)
  {
    before.parents == item.parents && before.name == item.name
  }

  function ReadLine(r: Reading, line: Line): Reading
  {
    match line
    case Header(q) => Reading(r.done, r.adjacent && q == [] && r.section == [], q)
    case Entry(sub, name, inputs) =>
      var item := ConfigItem(r.section + sub, name, inputs);
      var n := |r.done| - 1;
      if r.adjacent && n >= 0 && Repeats(r.done[n], item)
      then Reading(r.done[..n] + [item.(inputs := Merged(r.done[n].inputs, inputs))], true, r.section)
      else Reading(r.done + [item], true, r.section)
  }

  function ReadLines(r: Reading, lines: seq<Line>): Reading
    decreases |lines|
  {
    if lines == [] then r else ReadLines(ReadLine(r, lines[0]), lines[1..])
  }

  const NOTHING_READ: Reading := Reading([], false, [])

  predicate Follows(s: State, r: Reading)
  {
    && Options(s.output) == r.done && s.current == r.section
    && (r.adjacent <==> s.output != [] && !IsMarker(Last(s.output)))
  }

  lemma HeaderFollows(s: State, r: Reading, q: seq<string>)
    requires Follows(s, r)
    ensures Follows(OnLine(s, Header(q)), ReadLine(r, Header(q)))
  {
    hide Checked;
    OptionsSnoc(s.output, Closing(s.current));
    if q != [] {
      NoOptionsMoving(Leave(s), q);
    }
  }

  lemma LastOption(output: seq<ConfigItem>)
    requires output != [] && !IsMarker(Last(output))
    ensures Options(output) == Options(output[..|output| - 1]) + [Last(output)]
  {
  }

  lemma EntryFollows(s: State, r: Reading, line: Line)
    requires Follows(s, r) && line.Entry? && LineOk(line)
    ensures Follows(OnLine(s, line), ReadLine(r, line))
  {
    hide Options, Merged;
    var item := ConfigItem(r.section + line.sub, line.name, line.inputs);
    if r.adjacent {
      LastOption(s.output);
    }
    if Matches(s.output, item) {
      var merged := Last(s.output).(inputs := Merged(Last(s.output).inputs, line.inputs));
      OptionsSnoc(s.output[..|s.output| - 1], merged);
    } else {
      OptionsSnoc(s.output, item);
    }
  }

  lemma {:induction false} LinesFollow(s: State, r: Reading, lines: seq<Line>)
    requires Follows(s, r) && forall i :: 0 <= i < |lines| ==> LineOk(lines[i])
    ensures Follows(OnLines(s, lines), ReadLines(r, lines))
    decreases |lines|
  {
    hide Follows, OnLine, ReadLine;
    if lines != [] {
      if lines[0].Entry? {
        EntryFollows(s, r, lines[0]);
      } else {
        HeaderFollows(s, r, lines[0].section);
      }
      LinesFollow(OnLine(s, lines[0]), ReadLine(r, lines[0]), lines[1..]);
    }
  }

  /** What comes out of a file besides markers are exactly the options that its lines give. */
  lemma OptionsComeOut(lines: seq<Line>)
    requires forall i :: 0 <= i < |lines| ==> LineOk(lines[i])
    ensures Options(Parsed(lines)) == ReadLines(NOTHING_READ, lines).done
  {
    LinesFollow(START, NOTHING_READ, lines);
    var s := OnLines(START, lines);
    NoOptionsClosing(s.current, |s.current|, 1);
    OptionsConcat(s.output, Closings(s.current, |s.current|, 1));
  }

  /** The option lines, one item each. */
  function Listed(section: seq<string>, lines: seq<Line>): seq<ConfigItem>
    decreases |lines|
  {
    if lines == [] then [] else
      match lines[0]
      case Header(q) => Listed(q, lines[1..])
      case Entry(sub, name, inputs) => [ConfigItem(section + sub, name, inputs)] + Listed(section, lines[1..])
  }

  /** No line repeats the option of the line before, where only [default] headers of the default
      section may stand in between; `before` is the option before the lines, if there is one. */
  predicate NoRepeats(before: seq<ConfigItem>, section: seq<string>, lines: seq<Line>)
    decreases |lines|
  {
    lines == [] ||
    match lines[0]
    case Header(q) => NoRepeats(if q == [] && section == [] then before else [], q, lines[1..])
    case Entry(sub, name, inputs) =>
      var item := ConfigItem(section + sub, name, inputs);
      (before == [] || !Repeats(before[0], item)) && NoRepeats([item], section, lines[1..])
  }

  lemma {:induction false} ListedInOrder(r: Reading, lines: seq<Line>)
    requires r.adjacent ==> r.done != []
    requires NoRepeats(if r.adjacent then [r.done[|r.done| - 1]] else [], r.section, lines)
    ensures ReadLines(r, lines).done == r.done + Listed(r.section, lines)
    decreases |lines|
  {
    if lines != [] {
      var next := ReadLine(r, lines[0]);
      ListedInOrder(next, lines[1..]);
      if lines[0].Entry? {
        var item := ConfigItem(r.section + lines[0].sub, lines[0].name, lines[0].inputs);
        var others := Listed(r.section, lines[1..]);
        assert r.done + [item] + others == r.done + ([item] + others);
      }
    }
  }

  /** A file without repeated options gives every option line as it is, in its section, with its values. */
  lemma EveryOption(lines: seq<Line>)
    requires (forall i :: 0 <= i < |lines| ==> LineOk(lines[i])) && NoRepeats([], [], lines)
    ensures Options(Parsed(lines)) == Listed([], lines)
  {
    OptionsComeOut(lines);
    ListedInOrder(NOTHING_READ, lines);
    assert [] + Listed([], lines) == Listed([], lines);
  }

  lemma {:induction false} ReadConcat(r: Reading, a: seq<Line>, line: Line)
    ensures ReadLines(r, a + [line]) == ReadLine(ReadLines(r, a), line)
    decreases |a|
  {
    if a == [] {
      assert a + [line] == [line] && [line][1..] == [];
    } else {
      assert (a + [line])[1..] == a[1..] + [line];
      ReadConcat(ReadLine(r, a[0]), a[1..], line);
    }
  }

  /** The same option once for each group of values. */
  function Lines(sub: seq<string>, name: string, groups: seq<seq<string>>): (r: seq<Line>)
    ensures |r| == |groups| && forall i :: 0 <= i < |r| ==> r[i] == Entry(sub, name, groups[i])
  {
    seq(|groups|, i requires 0 <= i < |groups| => Entry(sub, name, groups[i]))
  }

  lemma RepeatMerges(parents: seq<string>, section: seq<string>, sub: seq<string>, name: string,
                     a: seq<string>, b: seq<string>)
    requires parents == section + sub
    ensures ReadLine(Reading([ConfigItem(parents, name, a)], true, section), Entry(sub, name, b)) ==
            Reading([ConfigItem(parents, name, Merged(a, b))], true, section)
  {
    hide Merged;
    var done := [ConfigItem(parents, name, a)];
    assert done[..0] == [];
  }

  lemma {:induction false} RepeatsMerge(section: seq<string>, sub: seq<string>, name: string, groups: seq<seq<string>>)
    requires groups != []
    ensures ReadLines(Reading([], false, section), Lines(sub, name, groups)) ==
            Reading([ConfigItem(section + sub, name, Repeated(groups))], true, section)
    decreases |groups|
  {
    var n := |groups| - 1;
    var lines := Lines(sub, name, groups);
    if n == 0 {
      assert lines == [Entry(sub, name, groups[0])];
      FirstRead(section, sub, name, groups[0]);
    } else {
      RepeatsMerge(section, sub, name, groups[..n]);
      assert lines == Lines(sub, name, groups[..n]) + [Entry(sub, name, groups[n])];
      hide Merged, Lines, ReadLine, ReadLines;
      ReadConcat(Reading([], false, section), Lines(sub, name, groups[..n]), Entry(sub, name, groups[n]));
      RepeatMerges(section + sub, section, sub, name, Repeated(groups[..n]), groups[n]);
    }
  }

  lemma FirstRead(section: seq<string>, sub: seq<string>, name: string, inputs: seq<string>)
    ensures ReadLines(Reading([], false, section), [Entry(sub, name, inputs)]) ==
            Reading([ConfigItem(section + sub, name, inputs)], true, section)
  {
    var line := Entry(sub, name, inputs);
    var option := ConfigItem(section + sub, name, inputs);
    assert [line][1..] == [] && [] + [option] == [option];
  }

  /** An option that is repeated in its section comes out once, with all of its values. */
  lemma RepeatedOption(section: seq<string>, sub: seq<string>, name: string, groups: seq<seq<string>>)
    requires groups != [] && name != "++" && name != "--"
    ensures Options(Parsed([Header(section)] + Lines(sub, name, groups))) ==
            [ConfigItem(section + sub, name, Repeated(groups))]
  {
    var lines := [Header(section)] + Lines(sub, name, groups);
    OptionsComeOut(lines);
    assert lines[1..] == Lines(sub, name, groups);
    RepeatsMerge(section, sub, name, groups);
  }

  /** When the values of a repeated option are joined without a separator. */
  lemma MergedPlain(a: seq<string>, b: seq<string>)
    ensures |a| <= 1 || |b| <= 1 || a[|a| - 1] in ["", "%%"] || b[0] in ["", "%%"] ==> Merged(a, b) == a + b
  {
  }
}
