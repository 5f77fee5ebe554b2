/** Bytes and C strings. */
module Bytes {

  type Byte = x: int | 0 <= x < 256

  predicate NulFree(s: seq<Byte>) { forall i | 0 <= i < |s| :: s[i] != 0 }

  /** What a C string holds: what follows a NUL is lost. */
  function CString(s: seq<Byte>): (t: seq<Byte>)
    ensures NulFree(t)
  {
    if s == [] || s[0] == 0 then [] else [s[0]] + CString(s[1..])
  }

  lemma {:induction false} CStringWithoutNul(s: seq<Byte>)
    requires NulFree(s)
    ensures CString(s) == s
    decreases |s|
  {
    if s != [] {
      CStringWithoutNul(s[1..]);
    }
  }

  /** A C string ends at its first NUL, whatever follows. */
  lemma {:induction false} CStringUpTo(s: seq<Byte>, t: seq<Byte>)
    ensures CString(s + [0] + t) == CString(s)
    decreases |s|
  {
    var all := s + [0] + t;
    if s != [] {
      CStringUpTo(s[1..], t);
      assert all[1..] == s[1..] + [0] + t;
    }
  }
}
