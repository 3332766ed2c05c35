/** C strings in memory: values are NUL-free sequences, memory is an array of characters. */
module CStrings {
  type CString = s: seq<char> | '\0' !in s

  /** Memory holds string s, with its terminator, at offset `at`. */
  predicate HoldsAt(mem: seq<char>, at: nat, s: seq<char>) {
    at + |s| < |mem| && mem[at..at + |s|] == s && mem[at + |s|] == '\0'
  }

  /** strcpy(dst + at, src): must fit, terminator included. */
  method StrCpy(dst: array<char>, at: nat, src: CString)
    requires at + |src| < dst.Length
    modifies dst
    ensures HoldsAt(dst[..], at, src)
    ensures dst[..at] == old(dst[..at]) && dst[at + |src| + 1..] == old(dst[at + |src| + 1..])
  {
    forall i | 0 <= i < |src| { dst[at + i] := src[i]; }
    dst[at + |src|] := '\0';
  }

  method StrLen(mem: array<char>, at: nat, ghost s: CString) returns (n: nat)
    requires HoldsAt(mem[..], at, s)
    ensures n == |s|
  {
    n := 0;
    assert forall i | 0 <= i < |s| :: mem[at + i] == mem[..][at..at + |s|][i] == s[i];
    while mem[at + n] != '\0'
      invariant n <= |s|
      decreases |s| - n
    {
      n := n + 1;
    }
  }

  /** strcpy over the tail of the string s that memory holds: s is kept up to `at`, then comes src. */
  method StrCpyOver(dst: array<char>, ghost s: CString, at: nat, src: CString)
    requires HoldsAt(dst[..], 0, s) && at <= |s| && at + |src| < dst.Length
    modifies dst
    ensures HoldsAt(dst[..], 0, s[..at] + src) && '\0' !in s[..at] + src
  {
    ghost var before := dst[..];
    StrCpy(dst, at, src);
    ghost var after := dst[..];
    assert after[..at + |src|] == after[..at] + after[at..at + |src|];
    assert after[..at] == before[..at] == before[0..|s|][..at];
  }
}
