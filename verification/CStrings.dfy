/** NUL-terminated strings in character buffers. */
module CStrings {
  /** A C string's characters. */
  predicate NoNul(s: string) {
    forall i :: 0 <= i < |s| ==> s[i] != '\0'
  }

  /** The C string at the front of a buffer: all of it when no NUL occurs. */
  function CString(b: string): (s: string)
    ensures |s| <= |b| && s == b[..|s|] && NoNul(s)
    ensures |s| < |b| ==> b[|s|] == '\0'
  {
    if b == "" || b[0] == '\0' then "" else [b[0]] + CString(b[1..])
  }

  lemma CStringUnique(b: string, n: nat)
    requires n <= |b| && NoNul(b[..n]) && (n == |b| || b[n] == '\0')
    ensures CString(b) == b[..n]
  {
    assert forall i :: 0 <= i < n ==> b[..n][i] == b[i];
  }
}
