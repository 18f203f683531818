/** NUL-terminated byte strings as the C library sees them.

    A C `char` buffer is a sequence of bytes; the string it holds is every
    byte before the first NUL.  `StrLen` is what `strlen` returns and
    `Text` is the string itself.
 */
module CString {

  /** One C `char`, as the eight bits it holds. */
  newtype byte = x: int | 0 <= x < 0x100

  /** The terminator byte `'\0'`. */
  const NUL: byte := 0

  /** A buffer `strlen` may scan: it holds a terminator somewhere. */
  predicate Terminated(s: seq<byte>) {
    NUL in s
  }

  /** The index of the first NUL, i.e. the length `strlen` reports. */
  function StrLen(s: seq<byte>): (n: nat)
    requires Terminated(s)
    ensures n < |s| && s[n] == NUL
    ensures forall i :: 0 <= i < n ==> s[i] != NUL
  {
    if s[0] == NUL then 0
    else
      assert s == [s[0]] + s[1..];
      1 + StrLen(s[1..])
  }

  /** The characters of the string held in `s`, without its terminator. */
  function Text(s: seq<byte>): (t: seq<byte>)
    requires Terminated(s)
    ensures |t| < |s| && NUL !in t
    ensures t + [NUL] == s[..|t| + 1]
  {
    s[..StrLen(s)]
  }

  /** Any index that holds a NUL and is preceded only by non-NUL bytes is
      the string length: the first-NUL description determines `StrLen`. */
  lemma StrLenIsFirstNul(s: seq<byte>, k: nat)
    requires k < |s| && s[k] == NUL
    requires forall i :: 0 <= i < k ==> s[i] != NUL
    ensures Terminated(s) && StrLen(s) == k
  {
    assert s[k] in s;
  }
}
