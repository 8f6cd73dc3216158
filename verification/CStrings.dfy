/** NUL-terminated strings. */
module CStrings {
  import opened Words

  /** The C string a pointer to these bytes denotes: everything before the first NUL. */
  function CString(s: Bytes): (t: Bytes)
    ensures |t| <= |s| && t == s[..|t|] && 0 !in t
    ensures |t| < |s| ==> s[|t|] == 0
    ensures 0 in s ==> |t| < |s|
  {
    if s == [] || s[0] == 0 then [] else [s[0]] + CString(s[1..])
  }

  /** Up to the end of a C string, a NUL is found only there. */
  lemma EndOfString(s: Bytes, i: nat)
    requires 0 in s && i <= |CString(s)|
    ensures s[i] == 0 <==> i == |CString(s)|
  {
    var t := CString(s);
    if i < |t| { assert s[i] == t[i]; }
  }

  /** What is behind a NUL does not belong to the string. */
  lemma {:induction false} StringSettled(s: Bytes, t: Bytes)
    requires 0 in s
    ensures CString(s + t) == CString(s)
  {
    if s[0] != 0 {
      assert (s + t)[1..] == s[1..] + t;
      StringSettled(s[1..], t);
    }
  }

  /** A NUL-free start is the start of the string. */
  lemma {:induction false} StringContinues(s: Bytes, t: Bytes)
    requires 0 !in s
    ensures CString(s + t) == s + CString(t)
  {
    if s == [] {
      assert s + t == t;
    } else {
      assert (s + t)[1..] == s[1..] + t;
      StringContinues(s[1..], t);
    }
  }
}
