/** C strings without their terminators. */
module CStrings {
  import opened MemCpy

  predicate Chars(s: seq<byte>) {
    forall i :: 0 <= i < |s| ==> s[i] != 0
  }

  /** The character of a C string at p, with the terminator at its length. */
  function CharAt(s: seq<byte>, p: nat): byte
    requires p <= |s|
  {
    if p < |s| then s[p] else 0
  }
}
