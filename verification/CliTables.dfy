/** The character classes, tables and forms of ThirdParty/CLI11/CLI11.hpp, in literal terms. */
module CliTables {
  import opened CliText
  import opened CliEscape
  import opened CliBinary
  import opened CliConfig

  // ---- characters -------------------------------------------------------

  /** std::isspace and isprint in the "C" locale. */
  lemma Classes(c: char)
    ensures IsSpace(c) <==> c in " \t\n\r\U{B}\U{C}"
    ensures IsPrint(c) <==> 32 <= c as int <= 126
  {
  }

  predicate Blank(s: string)
  {
    forall i :: 0 <= i < |s| ==> IsSpace(s[i])
  }

  lemma {:induction false} LTrimCuts(s: string) returns (a: string)
    ensures s == a + LTrim(s) && Blank(a)
    decreases |s|
  {
    if s == "" || !IsSpace(s[0]) {
      a := "";
    } else {
      var b := LTrimCuts(s[1..]);
      a := [s[0]] + b;
    }
  }

  lemma {:induction false} RTrimCuts(s: string) returns (b: string)
    ensures s == RTrim(s) + b && Blank(b)
    ensures s != "" && !IsSpace(s[0]) ==> RTrim(s) != "" && RTrim(s)[0] == s[0]
    decreases |s|
  {
    if s == "" || !IsSpace(s[|s| - 1]) {
      b := "";
    } else {
      var n := |s| - 1;
      var c := RTrimCuts(s[..n]);
      b := c + [s[n]];
    }
  }

  /** Trimming cuts white space off at both ends, and all of it. */
  lemma TrimCuts(s: string) returns (a: string, b: string)
    ensures s == a + Trim(s) + b && Blank(a) && Blank(b)
    ensures Trim(s) != "" ==> !IsSpace(Trim(s)[0]) && !IsSpace(Trim(s)[|Trim(s)| - 1])
  {
    a := LTrimCuts(s);
    b := RTrimCuts(LTrim(s));
  }

  // ---- escapes ----------------------------------------------------------

  /** What each character is escaped to: seven of them to a backslash and a letter, and the others not. */
  lemma EscapeTable(c: char)
    ensures AddOne('\U{8}') == "\\b" && AddOne('\t') == "\\t" && AddOne('\n') == "\\n" && AddOne('\U{C}') == "\\f"
    ensures AddOne('\r') == "\\r" && AddOne('"') == "\\\"" && AddOne('\\') == "\\\\"
    ensures c !in "\U{8}\t\n\U{C}\r\"\\" ==> AddOne(c) == [c]
  {
  }

  lemma TakenAs(code: char, c: char, rest: string)
    requires (code, c) in [
      ('b', '\U{8}'), ('t', '\t'), ('n', '\n'), ('f', '\U{C}'), ('r', '\r'), ('"', '"'), ('\\', '\\'), ('0', '\0')]
    ensures TakeOne(['\\', code] + rest) == Ok(Piece([c], 2))
  {
  }

  /** Which texts are refused, and for what. */
  lemma EscapeErrors(c: char, rest: string)
    ensures TakeOne("\\") == Fail(CutShort)
    ensures c !in "btnfr\"\\uU0" ==> TakeOne(['\\', c] + rest) == Fail(Unrecognized)
    ensures |rest| < 4 || !AllHex(rest[..4]) ==> TakeOne(['\\', 'u'] + rest) == Fail(FourHexCodes)
    ensures |rest| < 8 || !AllHex(rest[..8]) ==> TakeOne(['\\', 'U'] + rest) == Fail(EightHexCodes)
  {
    var u, v := ['\\', 'u'] + rest, ['\\', 'U'] + rest;
    assert |rest| >= 4 ==> u[2..6] == rest[..4];
    assert |rest| >= 8 ==> v[2..10] == rest[..8];
  }

  /** Hexadecimal digits of either case. */
  lemma HexTable(c: char)
    ensures HexConvert('0') == 0 && HexConvert('9') == 9 && HexConvert('A') == 10 && HexConvert('F') == 15
    ensures HexConvert('a') == 10 && HexConvert('f') == 15
    ensures HexConvert(c) < 16 <==> 48 <= c as int <= 57 || 65 <= c as int <= 70 || 97 <= c as int <= 102
    ensures 48 <= c as int <= 57 ==> HexConvert(c) == c as int - 48
    ensures 65 <= c as int <= 70 ==> HexConvert(c) == c as int - 55
    ensures 97 <= c as int <= 102 ==> HexConvert(c) == c as int - 87
  {
  }

  /** A byte that is not printable is written as \x and two lower-case digits. */
  lemma HexPairIs(c: char)
    requires c < 256 as char
    ensures var digits := "0123456789abcdef"; HexPair(c) == "\\x" + [digits[c as int / 16], digits[c as int % 16]]
  {
  }

  // ---- printed forms ----------------------------------------------------

  predicate OnlyIn(s: string, allowed: string)
  {
    forall i :: 0 <= i < |s| ==> s[i] in allowed
  }

  /** What is printed as it is: four words, decimal numbers, and hexadecimal, octal and binary numbers. */
  predicate PrintedBare(arg: string, numeric: string -> bool)
  {
    || arg in ["true", "false", "nan", "inf"]
    || (arg != "" && !("0x" <= arg) && !("0X" <= arg) && numeric(arg) && OnlyIn(arg, "0123456789.-+eE"))
    || ("0x" <= arg && OnlyIn(arg[2..], "0123456789abcdefABCDEF"))
    || ("0o" <= arg && OnlyIn(arg[2..], "01234567"))
    || ("0b" <= arg && OnlyIn(arg[2..], "01"))
  }

  lemma AllInIs(s: string, from: nat, allowed: char -> bool, letters: string)
    requires from <= |s| && forall c :: allowed(c) <==> c in letters
    ensures AllIn(s, from, allowed) <==> OnlyIn(s[from..], letters)
  {
    if AllIn(s, from, allowed) {
      forall i | 0 <= i < |s| - from
        ensures s[from..][i] in letters
      {
        assert allowed(s[from + i]);
      }
    }
    if OnlyIn(s[from..], letters) {
      forall i | from <= i < |s|
        ensures allowed(s[i])
      {
        assert s[from..][i - from] in letters;
      }
    }
  }

  lemma PlainNumberIs(arg: string, numeric: string -> bool)
    ensures IsPlainNumber(arg, numeric) <==>
              !("0x" <= arg) && !("0X" <= arg) && numeric(arg) && OnlyIn(arg, "0123456789.-+eE")
  {
    AllInIs(arg, 0, IsNumberChar, "0123456789.-+eE");
    assert arg[0..] == arg;
    hide AllIn, OnlyIn;
  }

  lemma RadixIs(arg: string)
    requires |arg| >= 2
    ensures IsRadixNumber(arg) <==>
              || ("0x" <= arg && OnlyIn(arg[2..], "0123456789abcdefABCDEF"))
              || ("0o" <= arg && OnlyIn(arg[2..], "01234567"))
              || ("0b" <= arg && OnlyIn(arg[2..], "01"))
  {
    AllInIs(arg, 2, IsHexDigit, "0123456789abcdefABCDEF");
    AllInIs(arg, 2, IsOctal, "01234567");
    AllInIs(arg, 2, IsBit, "01");
    hide AllIn, OnlyIn;
  }

  lemma BareIs(arg: string, numeric: string -> bool)
    ensures PrintedBare(arg, numeric) <==>
              IsWord(arg) || (arg != "" && IsPlainNumber(arg, numeric)) || (|arg| >= 2 && IsRadixNumber(arg))
  {
    PlainNumberIs(arg, numeric);
    if |arg| >= 2 {
      RadixIs(arg);
    }
    hide IsPlainNumber, IsRadixNumber, OnlyIn;
  }

  lemma NotRadix(arg: string, numeric: string -> bool)
    requires |arg| == 1 && PrintedBare(arg, numeric)
    ensures IsWord(arg) || IsPlainNumber(arg, numeric)
  {
    BareIs(arg, numeric);
  }

  /** How a value is printed, by what it is made of: as it is when it is bare, */
  lemma PrintedAsIs(arg: string, numeric: string -> bool, disable: bool)
    ensures PrintedBare(arg, numeric) ==> Convert(arg, numeric, disable) == arg
    ensures arg == "" ==> Convert(arg, numeric, disable) == "\"\""
  {
    BareIs(arg, numeric);
    hide PrintedBare, AddEscaped, BinaryEscape, IsRadixNumber, IsPlainNumber, IsPrintable, HasEscapable;
    if |arg| == 1 && PrintedBare(arg, numeric) {
      NotRadix(arg, numeric);
    }
  }

  /** a single character in quotes of one kind or the other, */
  lemma PrintedOne(arg: string, numeric: string -> bool, disable: bool)
    requires !PrintedBare(arg, numeric) && |arg| == 1
    ensures Convert(arg, numeric, disable) ==
            if !(32 <= arg[0] as int <= 126) then BinaryEscape(arg) else if arg == "'" then "\"'\"" else "'" + arg + "'"
  {
    BareIs(arg, numeric);
    Classes(arg[0]);
    QuotedQuote();
    hide PrintedBare, AddEscaped, BinaryEscape, IsRadixNumber, IsPlainNumber, IsWord, IsPrintable, HasEscapable,
      IsPrint, Quoted;
  }

  lemma QuotedQuote()
    ensures Quoted("'") == "\"'\""
  {
    assert "\"" + "'" + "\"" == "\"'\"";
  }

  /** a longer text binary, between triple quotes, escaped or only quoted. */
  lemma PrintedLong(arg: string, numeric: string -> bool, disable: bool)
    requires !PrintedBare(arg, numeric) && |arg| > 1
    ensures Convert(arg, numeric, disable) ==
            if !Printing(arg) then BinaryEscape(arg)
            else if !Escaping(arg) then "\"" + arg + "\""
            else if |arg| > 100 && !disable then "'''" + arg + "'''"
            else "\"" + AddEscaped(arg) + "\""
  {
    BareIs(arg, numeric);
    PrintingIs(arg);
    EscapingIs(arg);
    hide PrintedBare, AddEscaped, BinaryEscape, IsRadixNumber, IsPlainNumber, IsWord, Printing, Escaping, IsPrintable,
      HasEscapable;
  }

  predicate Printing(s: string)
  {
    forall i :: 0 <= i < |s| ==> 32 <= s[i] as int <= 126 || s[i] in "\n\t"
  }

  predicate Escaping(s: string)
  {
    exists i :: 0 <= i < |s| && s[i] in "\U{8}\t\n\U{C}\r\"\\"
  }

  lemma PrintingIs(s: string)
    ensures Printing(s) <==> IsPrintable(s)
  {
  }

  lemma EscapingIs(s: string)
    ensures Escaping(s) <==> HasEscapable(s)
  {
    if HasEscapable(s) {
      var i :| 0 <= i < |s| && IsEscapable(s[i]);
      assert s[i] in "\U{8}\t\n\U{C}\r\"\\";
    }
    if i :| 0 <= i < |s| && s[i] in "\U{8}\t\n\U{C}\r\"\\" {
      assert IsEscapable(s[i]);
    }
  }
}
