/** Bytes as Go sees them: a Go `string` or `[]byte` is a sequence of bytes. */
module Bytes {

  type byte = x: int | 0 <= x < 256

  /** The bytes of an ASCII string literal (every literal of the tool is ASCII). */
  function Str(s: string): seq<byte>
  {
    seq(|s|, i requires 0 <= i < |s| => (s[i] as int) % 256)
  }

  function Zeros(n: nat): (r: seq<byte>)
    ensures |r| == n && forall i :: 0 <= i < n ==> r[i] == 0
  {
    seq(n, _ => 0)
  }

  /** `copy(dst[:], src)` into a zeroed `[n]byte`: the first min(n, |src|) bytes of
      `src`, followed by zero padding. */
  function CopyPadded(src: seq<byte>, n: nat): (r: seq<byte>)
    ensures |r| == n
    ensures forall i :: 0 <= i < n && i < |src| ==> r[i] == src[i]
    ensures forall i :: |src| <= i < n ==> r[i] == 0
  {
    if n <= |src| then src[..n] else src + Zeros(n - |src|)
  }

  /** `strings.HasPrefix` */
  predicate HasPrefix(s: seq<byte>, prefix: seq<byte>)
  {
    |prefix| <= |s| && s[..|prefix|] == prefix
  }

  /** `strings.TrimPrefix`: `s` without `prefix`, or `s` itself when it does not start with it. */
  function TrimPrefix(s: seq<byte>, prefix: seq<byte>): (r: seq<byte>)
    ensures HasPrefix(s, prefix) ==> prefix + r == s
    ensures !HasPrefix(s, prefix) ==> r == s
  {
    if HasPrefix(s, prefix) then s[|prefix|..] else s
  }
}
