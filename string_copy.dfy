/** stringcopy: a NUL-terminated heap copy of a string's first bytes. */
module StringCopy {
  const NUL: char := '\0'

  /** strlen: the number of characters before the first NUL. */
  function StrLen(s: string): (n: nat)
    requires NUL in s
    ensures n < |s| && s[n] == NUL
    ensures forall i :: 0 <= i < n ==> s[i] != NUL
  {
    if s[0] == NUL then 0 else StrLen(s[1..]) + 1
  }

  /** The number of characters stringcopy copies: `len`, or strlen(s) when `len` is 0. */
  function CopyLength(s: string, len: nat): (n: nat)
    requires len == 0 ==> NUL in s
    ensures len != 0 ==> n == len
    ensures len == 0 ==> n < |s| && s[n] == NUL && forall i :: 0 <= i < n ==> s[i] != NUL
  {
    if len == 0 then StrLen(s) else len
  }

  /**
   * stringcopy: a fresh buffer of `n + 1` characters holding the first `n`
   * characters of `s` and a NUL, where `n` is `len`, or strlen(s) when `len`
   * is 0. `s` must hold at least `len` readable characters.
   */
  method CopyString(s: string, len: int) returns (r: array<char>)
    requires 0 <= len <= |s|
    requires len == 0 ==> NUL in s
    ensures fresh(r)
    ensures r[..] == s[..CopyLength(s, len)] + [NUL]
    ensures len == 0 ==> StrLen(r[..]) == StrLen(s)
  {
    var n := len;
    if n == 0 {
      n := StrLen(s);
    }
    r := new char[n + 1];
    forall i | 0 <= i < n {
      r[i] := s[i];
    }
    r[n] := NUL;
    if len == 0 {
      assert r[..] == s[..n] + [NUL];
      assert r[..][..n] == s[..n];
    }
  }
}
