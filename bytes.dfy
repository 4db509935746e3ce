/** Bytes and the Go conversions between `string` and `[]byte`.
    A Go string is a sequence of bytes; the model writes it as a Dafny string
    whose every character stands for one byte (its code, below 256). */
module Bytes {

  type byte = x: int | 0 <= x < 256

  /** True when every character of `s` stands for a byte. */
  predicate IsByteString(s: string) {
    forall i :: 0 <= i < |s| ==> s[i] as int < 256
  }

  /** `[]byte(s)` */
  function ToBytes(s: string): (r: seq<byte>)
    ensures |r| == |s|
    ensures forall i :: 0 <= i < |s| && s[i] as int < 256 ==> r[i] == s[i] as int
  {
    seq(|s|, i requires 0 <= i < |s| => (s[i] as int) % 256)
  }

  /** `string(b)` */
  function FromBytes(b: seq<byte>): (r: string)
    ensures |r| == |b|
    ensures IsByteString(r)
    ensures forall i :: 0 <= i < |b| ==> r[i] as int == b[i]
  {
    seq(|b|, i requires 0 <= i < |b| => b[i] as char)
  }

  /** `make([]byte, n)`: n zero bytes. */
  function Zeros(n: nat): (r: seq<byte>)
    ensures |r| == n && forall i :: 0 <= i < n ==> r[i] == 0
  {
    seq(n, _ => 0)
  }

  lemma FromToBytes(s: string)
    requires IsByteString(s)
    ensures FromBytes(ToBytes(s)) == s
  {
    var r := FromBytes(ToBytes(s));
    assert forall i :: 0 <= i < |s| ==> r[i] == s[i];
  }
}
