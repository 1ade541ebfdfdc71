/** C strings inside byte strings. */
module CStrings {
  import opened Positional

  /** What `strlen`, `strcpy` and `strncpy` see of a byte string: the part in front of the first zero. */
  function UntilZero(s: seq<byte>): (r: seq<byte>)
    ensures |r| <= |s|
    ensures forall k :: 0 <= k < |r| ==> r[k] == s[k] != 0
    ensures |r| < |s| ==> s[|r|] == 0
  {
    if s == [] || s[0] == 0 then [] else [s[0]] + UntilZero(s[1..])
  }
}
