/** The base64url encoding with `=` padding of section 5 of RFC 4648, as the
    Go library's `base64.URLEncoding` implements it: encoding groups three
    bytes into four characters; decoding accepts only whole quantums, allows
    padding in the last quantum only, and ignores leftover bits (the
    library's default, non-strict mode). */
module Base64 {
  import opened Wrappers
  import opened Bytes

  /** The alphabet of section 5 of RFC 4648: A-Z, a-z, 0-9, '-', '_'. */
  function CharOf(i: int): (c: char)
    requires 0 <= i < 64
  {
    if i < 26 then (65 + i) as char
    else if i < 52 then (97 + i - 26) as char
    else if i < 62 then (48 + i - 52) as char
    else if i == 62 then '-'
    else '_'
  }

  /** Position of `c` in the alphabet, or -1. */
  function IndexOf(c: char): (r: int)
    ensures -1 <= r < 64
    ensures r >= 0 ==> CharOf(r) == c
    ensures r == -1 <==> !(('A' <= c <= 'Z') || ('a' <= c <= 'z') || ('0' <= c <= '9') || c == '-' || c == '_')
  {
    if 'A' <= c <= 'Z' then c as int - 65
    else if 'a' <= c <= 'z' then c as int - 97 + 26
    else if '0' <= c <= '9' then c as int - 48 + 52
    else if c == '-' then 62
    else if c == '_' then 63
    else -1
  }

  lemma IndexOfCharOf(i: int)
    requires 0 <= i < 64
    ensures IndexOf(CharOf(i)) == i
  {
  }

  predicate InAlphabet(c: char) { IndexOf(c) >= 0 }

  const Padding: char := '='

  function Encode(s: seq<byte>): (r: string)
    ensures |r| == (|s| + 2) / 3 * 4
    decreases |s|
  {
    if |s| == 0 then ""
    else if |s| == 1 then OneQuantum(s[0])
    else if |s| == 2 then TwoQuantum(s[0], s[1])
    else Quantum(s[0], s[1], s[2]) + Encode(s[3..])
  }

  /** The last quantum of an input whose length is one more than a multiple
      of three: twelve bits and two padding characters. */
  function OneQuantum(b0: byte): (r: string)
    ensures |r| == 4
  {
    [CharOf(b0 / 4), CharOf(b0 % 4 * 16), Padding, Padding]
  }

  /** The last quantum of an input whose length is two more than a multiple
      of three: eighteen bits and one padding character. */
  function TwoQuantum(b0: byte, b1: byte): (r: string)
    ensures |r| == 4
  {
    [CharOf(b0 / 4), CharOf(b0 % 4 * 16 + b1 / 16), CharOf(b1 % 16 * 4), Padding]
  }

  /** The four characters that encode three bytes: six bits each. */
  function Quantum(b0: byte, b1: byte, b2: byte): (r: string)
    ensures |r| == 4
  {
    [CharOf(b0 / 4), CharOf(b0 % 4 * 16 + b1 / 16), CharOf(b1 % 16 * 4 + b2 / 64), CharOf(b2 % 64)]
  }

  /** Decodes one four-character quantum; `last` tells whether padding may occur. */
  function DecodeQuantum(q: string, last: bool): (r: Option<seq<byte>>)
    requires |q| == 4
    ensures r.Some? ==> 1 <= |r.value| <= 3
    ensures r.Some? && !last ==> |r.value| == 3
  {
    if InAlphabet(q[0]) && InAlphabet(q[1]) then
      var c0, c1 := IndexOf(q[0]), IndexOf(q[1]);
      if InAlphabet(q[2]) && InAlphabet(q[3]) then
        var c2, c3 := IndexOf(q[2]), IndexOf(q[3]);
        Some([c0 * 4 + c1 / 16, c1 % 16 * 16 + c2 / 4, c2 % 4 * 64 + c3])
      else if last && InAlphabet(q[2]) && q[3] == Padding then
        var c2 := IndexOf(q[2]);
        Some([c0 * 4 + c1 / 16, c1 % 16 * 16 + c2 / 4])
      else if last && q[2] == Padding && q[3] == Padding then
        Some([c0 * 4 + c1 / 16])
      else None
    else None
  }

  /** `base64.URLEncoding.DecodeString`, None on a corrupt input. */
  function Decode(s: string): (r: Option<seq<byte>>)
    ensures r.Some? ==> |s| % 4 == 0 && |r.value| <= |s| / 4 * 3
    decreases |s|
  {
    if |s| == 0 then Some([])
    else if |s| < 4 then None
    else
      match DecodeQuantum(s[..4], |s| == 4)
      case None => None
      case Some(head) =>
        if |s| == 4 then Some(head)
        else
          match Decode(s[4..])
          case None => None
          case Some(rest) => Some(head + rest)
  }

  /** Every character of an encoding is in the alphabet or is the padding. */
  lemma {:induction false} EncodeChars(s: seq<byte>)
    ensures forall i :: 0 <= i < |Encode(s)| ==> InAlphabet(Encode(s)[i]) || Encode(s)[i] == Padding
    decreases |s|
  {
    if |s| >= 3 {
      EncodeChars(s[3..]);
      var r := Encode(s);
      assert r == r[..4] + Encode(s[3..]);
      forall i | 0 <= i < |r| ensures InAlphabet(r[i]) || r[i] == Padding {
        if i >= 4 { assert r[i] == Encode(s[3..])[i - 4]; }
      }
    }
  }

  /** Bit arithmetic of one full quantum: the three bytes come back. */
  lemma FullQuantumBits(b0: byte, b1: byte, b2: byte)
    ensures var c0, c1, c2, c3 := b0 / 4, b0 % 4 * 16 + b1 / 16, b1 % 16 * 4 + b2 / 64, b2 % 64;
      c0 * 4 + c1 / 16 == b0 && c1 % 16 * 16 + c2 / 4 == b1 && c2 % 4 * 64 + c3 == b2
  {
  }

  lemma OneByteQuantum(b0: byte)
    ensures DecodeQuantum(OneQuantum(b0), true) == Some([b0])
  {
    IndexOfCharOf(b0 / 4);
    IndexOfCharOf(b0 % 4 * 16);
  }

  lemma TwoByteQuantum(b0: byte, b1: byte)
    ensures DecodeQuantum(TwoQuantum(b0, b1), true) == Some([b0, b1])
  {
    IndexOfCharOf(b0 / 4);
    IndexOfCharOf(b0 % 4 * 16 + b1 / 16);
    IndexOfCharOf(b1 % 16 * 4);
    FullQuantumBits(b0, b1, 0);
  }

  lemma ThreeByteQuantum(b0: byte, b1: byte, b2: byte, last: bool)
    ensures DecodeQuantum(Quantum(b0, b1, b2), last) == Some([b0, b1, b2])
  {
    IndexOfCharOf(b0 / 4);
    IndexOfCharOf(b0 % 4 * 16 + b1 / 16);
    IndexOfCharOf(b1 % 16 * 4 + b2 / 64);
    IndexOfCharOf(b2 % 64);
    FullQuantumBits(b0, b1, b2);
  }

  lemma ShortQuantumRoundTrip(s: seq<byte>)
    requires 1 <= |s| <= 2
    ensures DecodeQuantum(Encode(s), true) == Some(s)
  {
    if |s| == 1 {
      OneByteQuantum(s[0]);
      Elements(s);
    } else {
      TwoByteQuantum(s[0], s[1]);
      Elements(s);
    }
  }

  lemma FirstThree<T>(s: seq<T>)
    requires |s| >= 3
    ensures s[..3] == [s[0], s[1], s[2]]
  {
  }

  lemma Split<T>(s: seq<T>, k: nat)
    requires k <= |s|
    ensures s == s[..k] + s[k..]
    ensures k == |s| ==> s[..k] == s
  {
  }

  lemma Elements<T>(s: seq<T>)
    ensures |s| == 1 ==> s == [s[0]]
    ensures |s| == 2 ==> s == [s[0], s[1]]
  {
  }

  /** The first four characters encode the first three bytes. */
  lemma QuantumHead(s: seq<byte>)
    requires |s| >= 3
    ensures Encode(s)[..4] == Quantum(s[0], s[1], s[2])
    ensures Encode(s)[4..] == Encode(s[3..])
  {
    assert Encode(s) == Quantum(s[0], s[1], s[2]) + Encode(s[3..]);
  }

  lemma FullQuantumRoundTrip(s: seq<byte>)
    requires |s| >= 3
    ensures DecodeQuantum(Encode(s)[..4], |s| == 3) == Some(s[..3])
  {
    var q, head := Encode(s)[..4], s[..3];
    QuantumHead(s);
    FirstThree(s);
    ThreeByteQuantum(s[0], s[1], s[2], |s| == 3);
  }

  /** Round trip: decoding an encoding gives back the bytes. */
  lemma {:induction false} DecodeEncode(s: seq<byte>)
    ensures Decode(Encode(s)) == Some(s)
    decreases |s|
  {
    if 1 <= |s| <= 2 {
      ShortQuantumRoundTrip(s);
    } else if |s| >= 3 {
      FullQuantumRoundTrip(s);
      QuantumHead(s);
      Split(s, 3);
      if |s| > 3 {
        DecodeEncode(s[3..]);
      }
    }
  }
}
