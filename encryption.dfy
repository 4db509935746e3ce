/** The page-token codec of encryption.go. A page name is turned into the
    token `"<n>:" + base64url(ciphertext)`: its bytes are zero-filled up to a
    whole number of cipher blocks, `n` being the number of fill bytes, and the
    buffer is run through the block cipher. Go's `cipher.Block` transforms only
    the FIRST block of the buffer it is given; the rest passes through as is.
    DES itself (FIPS 46-3) is not modelled: a cipher is any pair of functions
    on 8-byte blocks whose decryption undoes its encryption. */
module PageCipher {
  import opened Wrappers
  import opened Bytes
  import Base64
  import opened TokenFormat

  /** Length of a DES key (encryption.go:10). */
  const PageCipherKeyLength: nat := 8

  /** The DES block size in bytes. */
  const BlockSize: nat := 8

  type Block = b: seq<byte> | |b| == BlockSize witness [0, 0, 0, 0, 0, 0, 0, 0]

  datatype BlockCipher = BlockCipher(encrypt: Block -> Block, decrypt: Block -> Block)

  /** Decryption undoes encryption on every block. */
  ghost predicate Inverts(c: BlockCipher) {
    forall b: Block :: c.decrypt(c.encrypt(b)) == b
  }

  /** A keyed block cipher, such as DES under the server's key. */
  type Cipher = c: BlockCipher | Inverts(c) witness BlockCipher(b => b, b => b)

  /** `sz * ceil(n / sz)`, the length `pad` gives a buffer of `n` bytes,
      written with integer arithmetic. */
  function PaddedLength(n: nat, sz: nat): nat
    requires sz > 0
  {
    if n % sz == 0 then n else n - n % sz + sz
  }

  /** The buffer `pad` returns: the input followed by zero bytes. */
  function PadBytes(s: seq<byte>, sz: nat): (r: seq<byte>)
    requires sz > 0
  {
    s + Zeros(PaddedLength(|s|, sz) - |s|)
  }

  lemma MulMonotone(x: int, y: int, sz: int)
    requires sz > 0 && x <= y
    ensures x * sz <= y * sz
  {
  }

  /** Euclidean division by `sz` is unique. */
  lemma DivModUnique(a: int, sz: int, k: int, r: int)
    requires sz > 0 && 0 <= r < sz && a == k * sz + r
    ensures a / sz == k && a % sz == r
  {
    var q := a / sz;
    assert a == q * sz + a % sz;
    if k < q {
      MulMonotone(k + 1, q, sz);
      assert false;
    } else if q < k {
      MulMonotone(q + 1, k, sz);
      assert false;
    }
  }

  /** `PaddedLength(n, sz)` is the least multiple of `sz` that is at least `n`,
      and the fill count lies in [0, sz), 0 exactly when `n` is a multiple. */
  lemma PaddedLengthIsLeastMultiple(n: nat, sz: nat)
    requires sz > 0
    ensures var p := PaddedLength(n, sz);
      && p % sz == 0 && n <= p && p - n < sz
      && (n % sz == 0 <==> p == n)
      && forall m: nat {:trigger m % sz} :: m % sz == 0 && n <= m ==> p <= m
  {
    PaddedLengthIsMultiple(n, sz);
    forall m: nat | m % sz == 0 && n <= m
      ensures PaddedLength(n, sz) <= m
    {
      PaddedLengthIsLeast(n, sz, m);
    }
  }

  lemma PaddedLengthIsMultiple(n: nat, sz: nat)
    requires sz > 0
    ensures var p := PaddedLength(n, sz);
      && p % sz == 0 && n <= p && p - n < sz
      && (n % sz == 0 <==> p == n)
      && (n > 0 ==> p >= sz)
  {
    if n % sz == 0 && n > 0 {
      assert n == n / sz * sz;
      MulMonotone(1, n / sz, sz);
    }
    if n % sz != 0 {
      var q := n / sz;
      assert n == q * sz + n % sz;
      assert PaddedLength(n, sz) == (q + 1) * sz;
      DivModUnique(PaddedLength(n, sz), sz, q + 1, 0);
    }
  }

  lemma PaddedLengthIsLeast(n: nat, sz: nat, m: nat)
    requires sz > 0 && m % sz == 0 && n <= m
    ensures PaddedLength(n, sz) <= m
  {
    if n % sz != 0 {
      var q, k := n / sz, m / sz;
      assert n == q * sz + n % sz;
      assert m == k * sz;
      if k <= q {
        MulMonotone(k, q, sz);
      } else {
        MulMonotone(q + 1, k, sz);
      }
    }
  }

  /** `pad` (encryption.go:14-26): a buffer whose length is a multiple of
      `sz` is returned itself with count 0; otherwise a fresh zeroed buffer of
      the padded length receives a copy of the input, and the count is the
      number of fill bytes. */
  method Pad(input: array<byte>, sz: int) returns (padded: array<byte>, count: int)
    requires sz > 0
    ensures padded[..] == PadBytes(input[..], sz)
    ensures count == padded.Length - input.Length
    ensures input.Length % sz == 0 ==> padded == input && count == 0
    ensures input.Length % sz != 0 ==> fresh(padded)
  {
    PaddedLengthIsLeastMultiple(input.Length, sz);
    padded, count := input, 0;
    if input.Length % sz != 0 {
      var newLen := input.Length - input.Length % sz + sz;
      padded := new byte[newLen](_ => 0);
      count := newLen - input.Length;
      var i := 0;
      while i < input.Length
        invariant 0 <= i <= input.Length
        invariant padded[..i] == input[..i]
        invariant forall j :: input.Length <= j < newLen ==> padded[j] == 0
      {
        padded[i] := input[i];
        i := i + 1;
      }
      assert padded[..] == padded[..input.Length] + padded[input.Length..];
    } else {
      assert input[..] + Zeros(0) == input[..];
    }
  }

  /** What `Encrypt(dst, dst)` or `Decrypt(dst, dst)` of a Go `cipher.Block`
      leaves in a buffer of at least one block: the first block transformed,
      the rest unchanged. */
  function FirstBlockThrough(f: Block -> Block, s: seq<byte>): (r: seq<byte>)
    requires |s| >= BlockSize
    ensures |r| == |s| && r[..BlockSize] == f(s[..BlockSize]) && r[BlockSize..] == s[BlockSize..]
  {
    f(s[..BlockSize]) + s[BlockSize..]
  }

  /** Runs `f` over the first block of the slice `buf[..len]` in place; a
      slice shorter than a block makes Go panic and is left untouched here. */
  const NotFullBlock := "crypto/des: input not full block"

  method CryptInPlace(f: Block -> Block, buf: array<byte>, len: nat) returns (r: Result<()>)
    requires len <= buf.Length
    modifies buf
    ensures r.Ok? <==> len >= BlockSize
    ensures r.Err? ==> r == Err(NotFullBlock)
    ensures r.Ok? ==> buf[..len] == FirstBlockThrough(f, old(buf[..len])) && buf[len..] == old(buf[len..])
    ensures r.Err? ==> buf[..] == old(buf[..])
  {
    if len < BlockSize {
      return Err(NotFullBlock);
    }
    var out := f(buf[..BlockSize]);
    var i := 0;
    while i < BlockSize
      invariant 0 <= i <= BlockSize
      invariant forall j :: 0 <= j < i ==> buf[j] == out[j]
      invariant forall j :: i <= j < buf.Length ==> buf[j] == old(buf[j])
    {
      buf[i] := out[i];
      i := i + 1;
    }
    assert old(buf[..len])[..BlockSize] == old(buf[..BlockSize]);
    assert buf[..len] == FirstBlockThrough(f, old(buf[..len]));
    return Ok(());
  }

  /** The token `EncryptPage` produces for `page`, or its panic. */
  function PageToken(c: Cipher, page: string): (r: Result<string>)
  {
    var bytes := ToBytes(page);
    var padded := PadBytes(bytes, BlockSize);
    if |padded| < BlockSize then Err(NotFullBlock)
    else Ok(FormatToken(|padded| - |bytes|, Base64.Encode(FirstBlockThrough(c.encrypt, padded))))
  }

  /** `PageCipher.EncryptPage` (encryption.go:32-38). */
  method EncryptPage(c: Cipher, page: string) returns (r: Result<string>)
    ensures r == PageToken(c, page)
  {
    var bytes := ToBytes(page);
    var input := new byte[|bytes|](i requires 0 <= i < |bytes| => bytes[i]);
    assert input[..] == bytes;
    var dst, padding := Pad(input, BlockSize);
    ghost var padded := PadBytes(bytes, BlockSize);
    assert dst[..dst.Length] == padded;
    var done := CryptInPlace(c.encrypt, dst, dst.Length);
    if done.Err? {
      return Err(NotFullBlock);
    }
    assert dst[..] == dst[..dst.Length] == FirstBlockThrough(c.encrypt, padded);
    assert padding == |padded| - |bytes|;
    r := Ok(FormatToken(padding, Base64.Encode(dst[..])));
  }

  /** The page `DecryptPage` recovers from a scanned token, or its panic.
      The decoded bytes sit in a buffer whose capacity is three bytes per four
      characters of the payload (`DecodeString` allocates that much and
      returns a prefix); the final slice may reach into that capacity. */
  function PlainOfToken(c: Cipher, t: Token): (r: Result<string>)
  {
    match Base64.Decode(t.payload)
    case None => Err("illegal base64 data")
    case Some(dst) =>
      if |dst| < BlockSize then Err(NotFullBlock)
      else
        var capacity := |t.payload| / 4 * 3;
        var end := |dst| - t.padding;
        if end < 0 || capacity < end then Err("slice bounds out of range")
        else Ok(FromBytes((FirstBlockThrough(c.decrypt, dst) + Zeros(capacity - |dst|))[..end]))
  }

  /** The page `DecryptPage` recovers from `input`, or its panic. */
  function PagePlain(c: Cipher, input: string): (r: Result<string>)
  {
    match ParseToken(input)
    case Err(e) => Err(e)
    case Ok(t) => PlainOfToken(c, t)
  }

  /** The buffer `DecodeString` decodes into: `capacity` bytes, the decoded
      ones first and zeros after them. */
  method DecodeBuffer(decoded: seq<byte>, capacity: nat) returns (dbuf: array<byte>)
    requires |decoded| <= capacity
    ensures fresh(dbuf) && dbuf.Length == capacity
    ensures dbuf[..|decoded|] == decoded && dbuf[|decoded|..] == Zeros(capacity - |decoded|)
  {
    var n := |decoded|;
    dbuf := new byte[capacity](i requires 0 <= i < capacity => if i < n then decoded[i] else 0);
    assert dbuf[..n] == decoded;
    assert dbuf[n..] == Zeros(capacity - n);
  }

  /** `PageCipher.DecryptPage` (encryption.go:40-59). */
  method DecryptPage(c: Cipher, input: string) returns (r: Result<string>)
    ensures r == PagePlain(c, input)
  {
    var parsed := ParseToken(input);
    if parsed.Err? {
      return Err(parsed.msg);
    }
    var padding, b64page := parsed.value.padding, parsed.value.payload;
    assert PagePlain(c, input) == PlainOfToken(c, parsed.value);
    var decoded := Base64.Decode(b64page);
    if decoded.None? {
      return Err("illegal base64 data");
    }
    var n := |decoded.value|;
    var capacity := |b64page| / 4 * 3;
    var dbuf := DecodeBuffer(decoded.value, capacity);
    var done := CryptInPlace(c.decrypt, dbuf, n);
    if done.Err? {
      return Err(NotFullBlock);
    }
    var end := n - padding;
    if end < 0 || capacity < end {
      return Err("slice bounds out of range");
    }
    assert dbuf[..] == dbuf[..n] + dbuf[n..];
    assert dbuf[..] == FirstBlockThrough(c.decrypt, decoded.value) + Zeros(capacity - n);
    r := Ok(FromBytes(dbuf[..end]));
  }

  /** A non-empty page pads to at least one block, so `PageToken` takes its
      success branch. */
  lemma PageTokenOfPage(c: Cipher, page: string)
    requires page != ""
    ensures var bytes := ToBytes(page);
      var padded := PadBytes(bytes, BlockSize);
      PageToken(c, page) == Ok(FormatToken(|padded| - |bytes|, Base64.Encode(FirstBlockThrough(c.encrypt, padded))))
  {
    PaddedLengthIsMultiple(|page|, BlockSize);
  }

  /** Encryption fails exactly on the empty page, whose buffer holds no block. */
  lemma EncryptFailsOnlyOnEmpty(c: Cipher, page: string)
    ensures PageToken(c, page).Err? <==> page == ""
  {
    PaddedLengthIsMultiple(|page|, BlockSize);
  }

  /** A token is the fill count, below one block, a colon and a base64url
      payload of whole quantums that decodes to the enciphered buffer. */
  lemma TokenShape(c: Cipher, page: string)
    requires page != ""
    ensures exists count: nat, payload: string ::
      && count < BlockSize
      && (|page| % BlockSize == 0 <==> count == 0)
      && PageToken(c, page) == Ok(FormatToken(count, payload))
      && Base64.Decode(payload) == Some(FirstBlockThrough(c.encrypt, PadBytes(ToBytes(page), BlockSize)))
  {
    var bytes := ToBytes(page);
    PaddedLengthIsMultiple(|bytes|, BlockSize);
    var enc := FirstBlockThrough(c.encrypt, PadBytes(bytes, BlockSize));
    Base64.DecodeEncode(enc);
    var count := PaddedLength(|bytes|, BlockSize) - |bytes|;
    var payload := Base64.Encode(enc);
    PageTokenOfPage(c, page);
    assert count < BlockSize && (|page| % BlockSize == 0 <==> count == 0);
  }

  /** The base64url payload of a token contains no white space. */
  lemma EncodingHasNoSpace(b: seq<byte>)
    ensures NoSpace(Base64.Encode(b))
  {
    var payload := Base64.Encode(b);
    Base64.EncodeChars(b);
    forall i | 0 <= i < |payload| ensures !IsSpace(payload[i]) {
      assert Base64.InAlphabet(payload[i]) || payload[i] == Base64.Padding;
    }
  }

  /** Deciphering the enciphered, padded bytes and cutting the fill gives the bytes back. */
  lemma PlainOfEncipheredToken(c: Cipher, bytes: seq<byte>)
    requires |bytes| > 0
    ensures var padded := PadBytes(bytes, BlockSize);
      PlainOfToken(c, Token(|padded| - |bytes|, Base64.Encode(FirstBlockThrough(c.encrypt, padded))))
        == Ok(FromBytes(bytes))
  {
    PaddedLengthIsMultiple(|bytes|, BlockSize);
    var padded := PadBytes(bytes, BlockSize);
    var enc := FirstBlockThrough(c.encrypt, padded);
    var payload := Base64.Encode(enc);
    Base64.DecodeEncode(enc);
    DecipherEnciphered(c, padded);
    EncodingCapacity(enc);
    var capacity := |payload| / 4 * 3;
    PrefixOfAppend(padded, Zeros(capacity - |enc|), |bytes|);
    PrefixOfAppend(bytes, Zeros(|padded| - |bytes|), |bytes|);
  }

  /** Deciphering the first block undoes enciphering it. */
  lemma DecipherEnciphered(c: Cipher, s: seq<byte>)
    requires |s| >= BlockSize
    ensures FirstBlockThrough(c.decrypt, FirstBlockThrough(c.encrypt, s)) == s
  {
    var enc := FirstBlockThrough(c.encrypt, s);
    var dec := FirstBlockThrough(c.decrypt, enc);
    assert dec[..BlockSize] == s[..BlockSize];
    assert dec == dec[..BlockSize] + dec[BlockSize..];
  }

  /** The decode buffer of an encoding holds the encoded bytes. */
  lemma EncodingCapacity(b: seq<byte>)
    ensures |b| <= |Base64.Encode(b)| / 4 * 3
  {
    var q := (|b| + 2) / 3;
    assert |Base64.Encode(b)| == q * 4;
    assert q * 4 / 4 == q;
  }

  lemma PrefixOfAppend<T>(a: seq<T>, b: seq<T>, k: nat)
    requires k <= |a|
    ensures (a + b)[..k] == a[..k]
    ensures k == |a| ==> (a + b)[..k] == a
  {
  }

  /** Round trip: decrypting the token of a non-empty page gives the page back. */
  lemma DecryptEncrypt(c: Cipher, page: string)
    requires page != "" && IsByteString(page)
    ensures PageToken(c, page).Ok? && PagePlain(c, PageToken(c, page).value) == Ok(page)
  {
    PageTokenOfPage(c, page);
    TokenOfBytesRoundTrip(c, ToBytes(page));
    FromToBytes(page);
  }

  /** The token built from non-empty bytes decrypts to those bytes. */
  lemma TokenOfBytesRoundTrip(c: Cipher, bytes: seq<byte>)
    requires |bytes| > 0
    ensures var padded := PadBytes(bytes, BlockSize);
      PagePlain(c, FormatToken(|padded| - |bytes|, Base64.Encode(FirstBlockThrough(c.encrypt, padded))))
        == Ok(FromBytes(bytes))
  {
    TokenFieldsOf(c, bytes);
    var padded := PadBytes(bytes, BlockSize);
    var t := Token(|padded| - |bytes|, Base64.Encode(FirstBlockThrough(c.encrypt, padded)));
    ParseFormat(t.padding, t.payload);
    PlainOfEncipheredToken(c, bytes);
    PagePlainOfParsed(c, FormatToken(t.padding, t.payload), t, Ok(FromBytes(bytes)));
  }

  /** The token built from non-empty bytes has a count below one block and a
      non-empty payload without blanks. */
  lemma TokenFieldsOf(c: Cipher, bytes: seq<byte>)
    requires |bytes| > 0
    ensures var padded := PadBytes(bytes, BlockSize);
      && BlockSize <= |padded| && 0 <= |padded| - |bytes| < BlockSize
      && var payload := Base64.Encode(FirstBlockThrough(c.encrypt, padded));
         |payload| > 0 && NoSpace(payload)
  {
    PaddedLengthIsMultiple(|bytes|, BlockSize);
    var padded := PadBytes(bytes, BlockSize);
    EncodingHasNoSpace(FirstBlockThrough(c.encrypt, padded));
  }

  lemma PagePlainOfParsed(c: Cipher, input: string, t: Token, plain: Result<string>)
    requires ParseToken(input) == Ok(t) && PlainOfToken(c, t) == plain
    ensures PagePlain(c, input) == plain
  {
  }

  /** Every way `DecryptPage` panics on a malformed token: an unreadable
      `<int>:` frame, a payload that is not base64url, a payload of less than
      one block, or a count that cuts the buffer below zero or past its
      capacity. */
  lemma DecryptRejects(c: Cipher, input: string)
    ensures ParseToken(input).Err? ==> PagePlain(c, input).Err?
    ensures ParseToken(input).Ok? ==> var t := ParseToken(input).value;
      && (Base64.Decode(t.payload).None? ==> PagePlain(c, input).Err?)
      && (Base64.Decode(t.payload).Some? ==>
            var dst := Base64.Decode(t.payload).value;
            (|dst| < BlockSize || t.padding > |dst| || |dst| - t.padding > |t.payload| / 4 * 3) ==> PagePlain(c, input).Err?)
  {
  }

  /** As written, a negative count is not rejected as long as the slice
      stays within the decode buffer's capacity: the result then carries
      extra zero bytes after the deciphered data. */
  lemma NegativeCountReadsIntoCapacity(c: Cipher, input: string)
    requires ParseToken(input).Ok? && ParseToken(input).value.padding < 0
    requires Base64.Decode(ParseToken(input).value.payload).Some?
    requires var t := ParseToken(input).value;
      var dst := Base64.Decode(t.payload).value;
      |dst| >= BlockSize && |dst| - t.padding <= |t.payload| / 4 * 3
    ensures PagePlain(c, input).Ok?
    ensures var t := ParseToken(input).value;
      var dst := Base64.Decode(t.payload).value;
      var plain := PagePlain(c, input).value;
      |plain| == |dst| - t.padding > |dst| && forall i :: |dst| <= i < |plain| ==> plain[i] == 0 as char
  {
  }
}
