/** C string semantics: a char buffer holds the string that ends at its first NUL. */
module CStrings {

  /** What strcpy copies and strlen measures: the characters before the first NUL. */
  function UpToNul(s: seq<char>): (r: seq<char>)
    ensures |r| <= |s| && r == s[..|r|]
    ensures '\0' !in r
    ensures |r| < |s| ==> s[|r|] == '\0'
  {
    if s == [] then []
    else if s[0] == '\0' then []
    else [s[0]] + UpToNul(s[1..])
  }
}
