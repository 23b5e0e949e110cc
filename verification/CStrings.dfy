/** Strings that end at their first NUL, over bytes and over characters. */
module CStrings {

  function UpTo<T(==)>(s: seq<T>, nul: T): (r: seq<T>)
    ensures nul !in r && r <= s && (|r| < |s| ==> s[|r|] == nul)
    ensures nul !in s ==> r == s
  {
    if s == [] || s[0] == nul then [] else [s[0]] + UpTo(s[1..], nul)
  }
}
