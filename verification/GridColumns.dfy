/** Column names of a recorder: PyRecorder::asDicts of python/griddyn_python.cpp. */
module GridColumns {
  import opened CStrings

  function Digit(n: nat): char
    requires n < 10
  {
    '0' + n as char
  }

  /** std::to_string of an unsigned number. */
  function Decimal(n: nat): (r: string)
    ensures r != []
  {
    if n < 10 then [Digit(n)] else Decimal(n / 10) + [Digit(n % 10)]
  }

  lemma DigitInjective(m: nat, n: nat)
    requires m < 10 && n < 10 && Digit(m) == Digit(n)
    ensures m == n
  {
    assert Digit(m) as int == '0' as int + m;
    assert Digit(n) as int == '0' as int + n;
  }

  lemma {:induction false} DecimalInjective(m: nat, n: nat)
    requires Decimal(m) == Decimal(n)
    ensures m == n
    decreases m
  {
    var r := Decimal(m);
    assert r[|r| - 1] == Digit(m % 10) == Digit(n % 10);
    DigitInjective(m % 10, n % 10);
    if m >= 10 && n >= 10 {
      assert r[..|r| - 1] == Decimal(m / 10) == Decimal(n / 10);
      DecimalInjective(m / 10, n / 10);
    }
  }

  /** The number that decimal digits stand for, the last one counting once. */
  function Number(s: string): nat
    requires forall i :: 0 <= i < |s| ==> '0' <= s[i] <= '9'
  {
    if s == "" then 0 else 10 * Number(s[..|s| - 1]) + (s[|s| - 1] as nat - 48)
  }

  /** The digits are those of the number, without a zero in front. */
  lemma {:induction false} DecimalIsNumber(n: nat)
    ensures forall i :: 0 <= i < |Decimal(n)| ==> '0' <= Decimal(n)[i] <= '9'
    ensures Number(Decimal(n)) == n && (n > 0 ==> Decimal(n)[0] != '0')
  {
    var r := Decimal(n);
    if n >= 10 {
      DecimalIsNumber(n / 10);
      assert r[..|r| - 1] == Decimal(n / 10);
    } else {
      assert r[..0] == "" && Number("") == 0;
    }
  }

  /** The names tried for a column, in order: the base name, then suffixes from 2 on. */
  function Candidate(base: string, k: nat): string
    requires k >= 1
  {
    if k == 1 then base else base + "_" + Decimal(k)
  }

  lemma CandidatesDiffer(base: string, j: nat, k: nat)
    requires 1 <= j && 1 <= k && Candidate(base, j) == Candidate(base, k)
    ensures j == k
  {
    if j > 1 && k > 1 {
      var c, n := Candidate(base, j), |base| + 1;
      assert c[n..] == Decimal(j) && Candidate(base, k)[n..] == Decimal(k);
      DecimalInjective(j, k);
    }
  }

  lemma CandidateIs(base: string, k: nat)
    requires k >= 1
    ensures Candidate(base, k) == if k == 1 then base else base + "_" + Decimal(k)
  {
  }

  /** A free name for the base: the first candidate that is not used. */
  ghost predicate FirstFree(base: string, used: set<string>, name: string)
  {
    && name !in used
    && exists k: nat ::
         k >= 1 && name == Candidate(base, k) && forall j: nat :: 1 <= j < k ==> Candidate(base, j) in used
  }

  /** The candidates before number `k`. */
  ghost function Tried(base: string, k: nat): set<string>
  {
    set j: nat | 1 <= j < k :: Candidate(base, j)
  }

  lemma OneMoreTried(base: string, k: nat, used: set<string>)
    requires k >= 1 && Candidate(base, k) in used
    ensures Tried(base, k + 1) == Tried(base, k) + {Candidate(base, k)}
    ensures |used - Tried(base, k + 1)| < |used - Tried(base, k)|
  {
    hide Candidate;
    if Candidate(base, k) in Tried(base, k) {
      var j: nat :| 1 <= j < k && Candidate(base, j) == Candidate(base, k);
      CandidatesDiffer(base, j, k);
      assert false;
    }
    assert used - Tried(base, k + 1) == used - Tried(base, k) - {Candidate(base, k)};
  }

  lemma FirstFreeIs(base: string, used: set<string>, k: nat)
    requires k >= 1 && Tried(base, k) <= used && Candidate(base, k) !in used
    ensures FirstFree(base, used, Candidate(base, k))
  {
    hide Candidate;
    assert forall j: nat :: 1 <= j < k ==> Candidate(base, j) in Tried(base, k);
  }

  /** The suffix loop.  It ends because every candidate that is taken is a different used name. */
  method FreeName(base: string, used: set<string>) returns (name: string)
    ensures FirstFree(base, used, name)
  {
    hide Decimal, Candidate, Tried, FirstFree;
    CandidateIs(base, 1);
    NoneTried(base);
    name := base;
    var suffix := 2;
    while name in used
      invariant suffix >= 2 && name == Candidate(base, suffix - 1) && Tried(base, suffix - 1) <= used
      decreases |used - Tried(base, suffix - 1)|
    {
      OneMoreTried(base, suffix - 1, used);
      CandidateIs(base, suffix);
      name := base + "_" + Decimal(suffix);
      suffix := suffix + 1;
    }
    FirstFreeIs(base, used, suffix - 1);
  }

  lemma NoneTried(base: string)
    ensures Tried(base, 1) == {}
  {
  }

  /** The name a column starts from. */
  function BaseName(fields: seq<string>, column: nat): string
  {
    if column < |fields| && fields[column] != [] then fields[column] else "column_" + Decimal(column)
  }

  function SetOf(names: seq<string>): set<string>
  {
    set i | 0 <= i < |names| :: names[i]
  }

  /** Every column has the first free name behind the columns before it. */
  ghost predicate Named(fields: seq<string>, names: seq<string>)
  {
    forall c: nat :: c < |names| ==> FirstFree(BaseName(fields, c), {"time"} + SetOf(names[..c]), names[c])
  }

  method ColumnNames(fields: seq<string>, columns: nat) returns (names: seq<string>)
    ensures |names| == columns && Named(fields, names)
  {
    names := [];
    var used := {"time"};
    for column := 0 to columns
      invariant |names| == column && used == {"time"} + SetOf(names) && Named(fields, names)
    {
      var name := FreeName(BaseName(fields, column), used);
      ghost var was := names;
      names := names + [name];
      used := used + {name};
      assert forall c: nat :: c < column ==> names[..c] == was[..c];
      assert names[..column] == was;
      assert SetOf(names) == SetOf(was) + {name} by {
        assert names[column] == name;
        assert forall c: nat :: c < column ==> names[c] == was[c];
      }
    }
  }

  /** The names are different from one another and from "time". */
  lemma NamesDiffer(fields: seq<string>, names: seq<string>)
    requires Named(fields, names)
    ensures "time" !in names
    ensures forall i, j :: 0 <= i < j < |names| ==> names[i] != names[j]
  {
    forall i | 0 <= i < |names|
      ensures names[i] != "time"
    {
      assert FirstFree(BaseName(fields, i), {"time"} + SetOf(names[..i]), names[i]);
    }
    forall i, j | 0 <= i < j < |names|
      ensures names[i] != names[j]
    {
      assert FirstFree(BaseName(fields, j), {"time"} + SetOf(names[..j]), names[j]);
      assert names[..j][i] == names[i];
      assert names[i] in SetOf(names[..j]);
    }
  }

  /** Four columns: a name that is there gets a suffix, also when it is "time", and an empty one becomes
      column_2. */
  lemma FourNames(names: seq<string>)
    requires |names| == 4 && Named(["a", "a", "", "time"], names)
    ensures names == ["a", "a_2", "column_2", "time_2"]
  {
    var fields := ["a", "a", "", "time"];
    BaseNames();
    hide BaseName;
    NextName(fields, names, [], "a", "a");
    NextName(fields, names, ["a"], "a", "a_2");
    NextName(fields, names, ["a", "a_2"], "column_2", "column_2");
    NextName(fields, names, ["a", "a_2", "column_2"], "time", "time_2");
  }

  lemma BaseNames()
    ensures var fields := ["a", "a", "", "time"];
      && BaseName(fields, 0) == "a" && BaseName(fields, 1) == "a" && BaseName(fields, 2) == "column_2"
      && BaseName(fields, 3) == "time"
  {
    assert Decimal(2) == "2" && "column_" + "2" == "column_2";
  }

  /** One name more behind the `front`. */
  lemma NextName(fields: seq<string>, names: seq<string>, front: seq<string>, base: string, name: string)
    requires Named(fields, names) && front <= names && |front| < |names| && BaseName(fields, |front|) == base
    requires var used := {"time"} + SetOf(front);
      (name == base && base !in used) || (name == base + "_2" && base in used && name !in used)
    ensures names[|front|] == name && names[..|front| + 1] == front + [name]
  {
    hide FirstFree, BaseName, SetOf;
    var c := |front|;
    assert names[..c] == front;
    assert FirstFree(BaseName(fields, c), {"time"} + SetOf(names[..c]), names[c]);
    FirstOrSecond(base, {"time"} + SetOf(front), names[c]);
  }

  lemma FirstOrSecond(base: string, used: set<string>, name: string)
    requires FirstFree(base, used, name)
    ensures base !in used ==> name == base
    ensures base in used && base + "_2" !in used ==> name == base + "_2"
  {
    assert Candidate(base, 1) == base && Decimal(2) == "2" && Candidate(base, 2) == base + "_" + "2" == base + "_2";
  }

  /** The key of a row is the C string of the name: it ends at the first NUL. */
  function CString(s: string): string
  {
    UpTo(s, 0 as char)
  }

  /** One row after its first `n` columns were stored. */
  function Row(names: seq<string>, time: real, values: seq<real>, n: nat): map<string, real>
    requires n <= |names| == |values|
  {
    if n == 0 then map["time" := time] else Row(names, time, values, n - 1)[CString(names[n - 1]) := values[n - 1]]
  }

  /** The inner loop of asDicts(); `values` are the data of the row, column by column. */
  method MakeRow(names: seq<string>, time: real, values: seq<real>) returns (row: map<string, real>)
    requires |names| == |values|
    ensures row == Row(names, time, values, |names|)
  {
    row := map[];
    row := row["time" := time];
    for column := 0 to |names|
      invariant row == Row(names, time, values, column)
    {
      row := row[CString(names[column]) := values[column]];
    }
  }

  /** The keys that a row has to keep apart. */
  predicate KeysDiffer(names: seq<string>)
  {
    && (forall i :: 0 <= i < |names| ==> CString(names[i]) != "time")
    && (forall i, j :: 0 <= i < j < |names| ==> CString(names[i]) != CString(names[j]))
  }

  function KeySet(names: seq<string>, n: nat): set<string>
    requires n <= |names|
  {
    if n == 0 then {"time"} else KeySet(names, n - 1) + {CString(names[n - 1])}
  }

  lemma {:induction false} InKeySet(names: seq<string>, n: nat, key: string)
    requires n <= |names|
    ensures key in KeySet(names, n) <==> key == "time" || exists i :: 0 <= i < n && CString(names[i]) == key
    decreases n
  {
    if n > 0 {
      InKeySet(names, n - 1, key);
    }
  }

  lemma {:induction false} RowKeys(names: seq<string>, time: real, values: seq<real>, n: nat)
    requires n <= |names| == |values|
    ensures Row(names, time, values, n).Keys == KeySet(names, n)
    decreases n
  {
    if n > 0 {
      RowKeys(names, time, values, n - 1);
    }
  }

  lemma {:induction false} RowHas(names: seq<string>, time: real, values: seq<real>, n: nat)
    requires n <= |names| == |values| && KeysDiffer(names)
    ensures var row := Row(names, time, values, n);
      && "time" in row && row["time"] == time
      && forall i :: 0 <= i < n ==> CString(names[i]) in row && row[CString(names[i])] == values[i]
    decreases n
  {
    if n > 0 {
      RowHas(names, time, values, n - 1);
    }
  }

  /** Where names are cut to the same key the last column counts, and before all of them the time. */
  lemma {:induction false} LastCounts(names: seq<string>, time: real, values: seq<real>, n: nat, i: int)
    requires -1 <= i < n <= |names| == |values|
    requires forall j :: i < j < n ==> CString(names[j]) != if i < 0 then "time" else CString(names[i])
    ensures var row, key := Row(names, time, values, n), if i < 0 then "time" else CString(names[i]);
      key in row && row[key] == if i < 0 then time else values[i]
    decreases n
  {
    if n - 1 > i {
      if n > 1 {
        LastCounts(names, time, values, n - 1, i);
      }
    }
  }

  /** No field name holds a NUL. */
  predicate NulFree(fields: seq<string>)
  {
    forall f :: f in fields ==> 0 as char !in f
  }

  lemma {:induction false} DecimalNulFree(n: nat)
    ensures 0 as char !in Decimal(n)
    decreases n
  {
    if n >= 10 {
      DecimalNulFree(n / 10);
    }
  }

  lemma NamesNulFree(fields: seq<string>, names: seq<string>, c: nat)
    requires NulFree(fields) && Named(fields, names) && c < |names|
    ensures 0 as char !in names[c]
  {
    var base := BaseName(fields, c);
    DecimalNulFree(c);
    assert 0 as char !in "column_";
    assert c < |fields| ==> fields[c] in fields;
    assert 0 as char !in base;
    assert FirstFree(base, {"time"} + SetOf(names[..c]), names[c]);
    var k: nat :| k >= 1 && names[c] == Candidate(base, k);
    DecimalNulFree(k);
  }

  /** When no field name holds a NUL, each row keeps the time and the value of every column. */
  lemma RowsKeepAll(fields: seq<string>, names: seq<string>, time: real, values: seq<real>)
    requires NulFree(fields) && Named(fields, names) && |names| == |values|
    ensures var row := Row(names, time, values, |names|);
      && |row| == |names| + 1 && "time" in row && row["time"] == time
      && forall i :: 0 <= i < |names| ==> names[i] in row && row[names[i]] == values[i]
  {
    NamesDiffer(fields, names);
    forall c | 0 <= c < |names|
      ensures CString(names[c]) == names[c]
    {
      NamesNulFree(fields, names, c);
    }
    RowHas(names, time, values, |names|);
    RowSize(names, time, values);
  }

  lemma {:induction false} KeySetSize(names: seq<string>, n: nat)
    requires n <= |names|
    ensures |KeySet(names, n)| <= n + 1
    ensures |KeySet(names, n)| == n + 1 <==> KeysDiffer(names[..n])
    decreases n
  {
    hide CString;
    if n > 0 {
      KeySetSize(names, n - 1);
      InKeySet(names, n - 1, CString(names[n - 1]));
      if CString(names[n - 1]) in KeySet(names, n - 1) {
        assert KeySet(names, n) == KeySet(names, n - 1);
        KeyTwice(names, n);
      } else {
        KeysDifferStep(names, n);
      }
    }
  }

  /** A row keeps one value per column exactly when the truncated names differ. */
  lemma RowSize(names: seq<string>, time: real, values: seq<real>)
    requires |names| == |values|
    ensures |Row(names, time, values, |names|)| <= |names| + 1
    ensures |Row(names, time, values, |names|)| == |names| + 1 <==> KeysDiffer(names)
  {
    RowKeys(names, time, values, |names|);
    KeySetSize(names, |names|);
    assert names[..|names|] == names;
    assert |Row(names, time, values, |names|).Keys| == |Row(names, time, values, |names|)|;
  }

  lemma KeyTwice(names: seq<string>, n: nat)
    requires 1 <= n <= |names|
    requires CString(names[n - 1]) == "time" || exists i :: 0 <= i < n - 1 && CString(names[i]) == CString(names[n - 1])
    ensures !KeysDiffer(names[..n])
  {
    var a := names[..n];
    assert a[n - 1] == names[n - 1];
    if CString(names[n - 1]) != "time" {
      var i :| 0 <= i < n - 1 && CString(names[i]) == CString(names[n - 1]);
      assert a[i] == names[i];
    }
  }

  lemma KeysDifferStep(names: seq<string>, n: nat)
    requires 1 <= n <= |names| && CString(names[n - 1]) != "time"
    requires forall i :: 0 <= i < n - 1 ==> CString(names[i]) != CString(names[n - 1])
    ensures KeysDiffer(names[..n]) <==> KeysDiffer(names[..n - 1])
  {
    var a, b := names[..n], names[..n - 1];
    assert forall i :: 0 <= i < n - 1 ==> a[i] == b[i];
  }

  /** With a NUL in the field names two columns can share a key although their names differ; the
      row then has lost a value. */
  lemma NulLosesValue(x: real, y: real)
    ensures var names := ["a" + [0 as char] + "b", "a" + [0 as char] + "c"];
      Named(names, names) && |Row(names, 0.0, [x, y], 2)| == 2
  {
    var names := ["a" + [0 as char] + "b", "a" + [0 as char] + "c"];
    assert names[0][2] != names[1][2];
    assert Candidate(names[0], 1) == names[0] && Candidate(names[1], 1) == names[1];
    assert FirstFree(names[0], {"time"} + SetOf(names[..0]), names[0]);
    assert SetOf(names[..1]) == {names[0]};
    assert FirstFree(names[1], {"time"} + SetOf(names[..1]), names[1]);
    TruncatedAt("a", "b");
    TruncatedAt("a", "c");
    RowKeys(names, 0.0, [x, y], 2);
    assert KeySet(names, 1) == {"time", "a"};
    assert KeySet(names, 2) == {"time", "a"};
  }

  lemma TruncatedAt(s: string, t: string)
    requires 0 as char !in s
    ensures CString(s + [0 as char] + t) == s
  {
    var whole := s + [0 as char] + t;
    if s != [] {
      assert whole[0] == s[0] && whole[1..] == s[1..] + [0 as char] + t;
      TruncatedAt(s[1..], t);
    }
  }
}
