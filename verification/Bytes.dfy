/** Bytes and NUL-terminated C strings. */
module Bytes {
  type byte = b: int | 0 <= b < 256

  type Bytes = seq<byte>

  const NUL: byte := 0

  /** The bytes of a text in ASCII. */
  function Ascii(s: string): (b: Bytes)
    requires forall i :: 0 <= i < |s| ==> s[i] as int < 128
    ensures |b| == |s| && forall i :: 0 <= i < |s| ==> b[i] == s[i] as int
  {
    seq(|s|, i requires 0 <= i < |s| => s[i] as int)
  }

  /** Equal, or one ASCII letter in two cases. */
  predicate SameLetter(x: byte, y: byte) {
    x == y || (65 <= x <= 90 && y == x + 32) || (65 <= y <= 90 && x == y + 32)
  }

  predicate SameText(a: Bytes, b: Bytes) {
    |a| == |b| && forall i :: 0 <= i < |a| ==> SameLetter(a[i], b[i])
  }

  /** The text a C function sees when it reads `s` as a NUL-terminated string. */
  function CString(s: Bytes): (t: Bytes)
    ensures t <= s && 0 !in t
    ensures |t| < |s| ==> s[|t|] == 0
  {
    if s == [] || s[0] == NUL then [] else [s[0]] + CString(s[1..])
  }

  /** A text without NUL, followed by a NUL or by nothing, is read back as itself. */
  lemma {:induction false} CStringOfPrefix(t: Bytes, s: Bytes)
    requires t <= s && NUL !in t
    requires |t| < |s| ==> s[|t|] == NUL
    ensures CString(s) == t
  {
    if t != [] {
      assert t[0] in t && s[0] == t[0];
      CStringOfPrefix(t[1..], s[1..]);
      assert t == [t[0]] + t[1..];
    }
  }

  /** Bytes after the first NUL do not matter. */
  lemma {:induction false} CStringCut(a: Bytes, s: Bytes)
    requires a <= s && (NUL in a || (|a| < |s| && s[|a|] == NUL))
    ensures CString(s) == CString(a)
  {
    if a != [] && a[0] != NUL {
      if NUL in a {
        var k :| 0 <= k < |a| && a[k] == NUL;
        assert a[1..][k - 1] == NUL;
      }
      CStringCut(a[1..], s[1..]);
    }
  }
}
