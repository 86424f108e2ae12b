/** Go strings as what they are: sequences of bytes. */
module Bytes {

  newtype byte = x: int | 0 <= x < 256

  type Bytes = seq<byte>

  /** '\n' */
  const NL: byte := 10
  /** ' ' */
  const SP: byte := 32

  /** The bytes of an ASCII string literal (used to state test vectors). */
  function Ascii(s: string): (r: Bytes)
    requires forall i :: 0 <= i < |s| ==> s[i] as int < 256
    ensures |r| == |s|
  {
    seq(|s|, i requires 0 <= i < |s| => s[i] as int as byte)
  }

  /** strings.Count(s, string(b)) for a single byte b. */
  function Count(s: Bytes, b: byte): nat {
    multiset(s)[b]
  }

  /** strings.IndexByte: the index of the first b in s, or -1 when there is none. */
  function IndexByte(s: Bytes, b: byte): (r: int)
    ensures -1 <= r < |s|
    ensures r == -1 <==> b !in s
    ensures 0 <= r ==> s[r] == b && b !in s[..r]
  {
    if s == [] then -1
    else if s[0] == b then 0
    else
      var k := IndexByte(s[1..], b);
      if k < 0 then -1
      else
        assert s[..k + 1] == [s[0]] + s[1..][..k];
        k + 1
  }

  /** strings.Repeat(" ", n). */
  function Spaces(n: nat): (r: Bytes)
    ensures |r| == n
    ensures forall i :: 0 <= i < n ==> r[i] == SP
  {
    seq(n, _ => SP)
  }
}
