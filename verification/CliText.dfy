/** Characters and trimming as used by ThirdParty/CLI11/CLI11.hpp.  A C++ string is a string
    whose characters are all below 256; the classification is that of the "C" locale. */
module CliText {

  datatype Result<+T> = Ok(value: T) | Fail(error: TextError)

  /** The messages of the std::invalid_argument exceptions. */
  datatype TextError = CutShort | FourHexCodes | EightHexCodes | NotUtf8 | Unrecognized

  ghost predicate Bytes(s: string)
  {
    forall i :: 0 <= i < |s| ==> s[i] < 256 as char
  }

  predicate IsSpace(c: char)
  {
    c == ' ' || '\t' <= c <= '\r'
  }

  predicate IsPrint(c: char)
  {
    ' ' <= c <= '~'
  }

  function LTrim(s: string): (r: string)
    ensures |r| <= |s| && (r == "" || !IsSpace(r[0]))
  {
    if s == "" || !IsSpace(s[0]) then s else LTrim(s[1..])
  }

  function RTrim(s: string): (r: string)
    ensures |r| <= |s| && r <= s && (r == "" || !IsSpace(r[|r| - 1]))
  {
    if s == "" || !IsSpace(s[|s| - 1]) then s else RTrim(s[..|s| - 1])
  }

  function Trim(s: string): (r: string)
    ensures |r| <= |s|
  {
    RTrim(LTrim(s))
  }

  /** First position at or after `from` holding `c`; the length of `s` when there is none. */
  function Find(s: string, c: char, from: nat): (r: nat)
    requires from <= |s|
    ensures from <= r <= |s|
    ensures c !in s[from..r] && (r < |s| ==> s[r] == c)
    decreases |s| - from
  {
    if from == |s| || s[from] == c then from else Find(s, c, from + 1)
  }

  lemma {:induction false} FindIs(s: string, c: char, from: nat, r: nat)
    requires from <= r < |s| && s[r] == c && c !in s[from..r]
    ensures Find(s, c, from) == r
    decreases r - from
  {
    if from < r {
      assert s[from] == s[from..r][0];
      assert s[from + 1..r] == s[from..r][1..];
      FindIs(s, c, from + 1, r);
    }
  }

  /** No white space at either end. */
  predicate Tight(s: string)
  {
    s != "" && !IsSpace(s[0]) && !IsSpace(s[|s| - 1])
  }

  lemma TrimTight(s: string)
    requires Tight(s)
    ensures Trim(s) == s && Trim(" " + s) == s
  {
    assert (" " + s)[1..] == s;
  }
}
