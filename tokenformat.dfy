/** The textual frame of a page token: `fmt.Sprintf("%d:%s", n, payload)`
    and its inverse `fmt.Sscanf(input, "%d:%s", &n, &payload)`, as Go's
    `fmt` package scans them: blanks before the number and before the word
    are skipped (a newline there is an error), the number is an optional
    sign and decimal digits that must fit a 64-bit `int`, the colon must
    follow at once, and the word runs up to the next blank. Input after the
    word is ignored. */
module TokenFormat {
  import opened Wrappers

  predicate IsDigit(c: char) { '0' <= c <= '9' }

  /** The ASCII white space of Go's scanner. */
  predicate IsSpace(c: char) { c == ' ' || c == '\t' || c == '\n' || c == '\r' || c as int == 11 || c as int == 12 }

  predicate AllDigits(s: string) { forall i :: 0 <= i < |s| ==> IsDigit(s[i]) }

  predicate NoSpace(s: string) { forall i :: 0 <= i < |s| ==> !IsSpace(s[i]) }

  function DigitChar(d: nat): (c: char)
    requires d < 10
    ensures IsDigit(c)
  {
    (48 + d) as char
  }

  /** `%d` of a non-negative integer. */
  function Decimal(n: nat): (r: string)
    ensures |r| >= 1 && AllDigits(r)
    decreases n
  {
    if n < 10 then [DigitChar(n)] else Decimal(n / 10) + [DigitChar(n % 10)]
  }

  /** The value of a run of decimal digits. */
  function DigitsValue(d: string): nat
    requires AllDigits(d)
  {
    if |d| == 0 then 0 else DigitsValue(d[..|d| - 1]) * 10 + (d[|d| - 1] as int - 48)
  }

  lemma {:induction false} DecimalValue(n: nat)
    ensures DigitsValue(Decimal(n)) == n
    decreases n
  {
    if n >= 10 {
      DecimalValue(n / 10);
      var d := Decimal(n);
      assert d[..|d| - 1] == Decimal(n / 10);
    }
  }

  const MinInt: int := -0x8000_0000_0000_0000
  const MaxInt: int := 0x7fff_ffff_ffff_ffff

  /** Index of the first non-space character at or after `i`; -1 when a
      newline is met first (Go reports "unexpected newline"). */
  function SkipSpace(s: string, i: nat): (j: int)
    requires i <= |s|
    ensures j == -1 || i <= j <= |s|
    ensures j >= 0 ==> j == |s| || !IsSpace(s[j])
    decreases |s| - i
  {
    if i == |s| then i
    else if s[i] == '\n' then -1
    else if IsSpace(s[i]) then SkipSpace(s, i + 1)
    else i
  }

  /** End of the run of digits starting at `i`. */
  function DigitsEnd(s: string, i: nat): (k: nat)
    requires i <= |s|
    ensures i <= k <= |s| && AllDigits(s[i..k]) && (k == |s| || !IsDigit(s[k]))
    decreases |s| - i
  {
    if i < |s| && IsDigit(s[i]) then
      var k := DigitsEnd(s, i + 1);
      assert s[i..k] == [s[i]] + s[i + 1..k];
      k
    else i
  }

  /** End of the run of non-space characters starting at `i`. */
  function WordEnd(s: string, i: nat): (k: nat)
    requires i <= |s|
    ensures i <= k <= |s| && NoSpace(s[i..k]) && (k == |s| || IsSpace(s[k]))
    decreases |s| - i
  {
    if i < |s| && !IsSpace(s[i]) then
      var k := WordEnd(s, i + 1);
      assert s[i..k] == [s[i]] + s[i + 1..k];
      k
    else i
  }

  datatype Token = Token(padding: int, payload: string)

  /** `fmt.Sscanf(s, "%d:%s", &padding, &payload)`. */
  function ParseToken(s: string): (r: Result<Token>)
    ensures r.Ok? ==> MinInt <= r.value.padding <= MaxInt
    ensures r.Ok? ==> |r.value.payload| > 0 && NoSpace(r.value.payload)
  {
    var i := SkipSpace(s, 0);
    if i < 0 then Err("unexpected newline")
    else if i == |s| then Err("unexpected EOF")
    else
      var negative := s[i] == '-';
      var j := if s[i] == '+' || s[i] == '-' then i + 1 else i;
      var k := DigitsEnd(s, j);
      if k == j then Err("expected integer")
      else
        var magnitude: int := DigitsValue(s[j..k]);
        var n: int := if negative then -magnitude else magnitude;
        if n < MinInt || MaxInt < n then Err("value out of range")
        else if k == |s| then Err("unexpected EOF")
        else if s[k] != ':' then Err("input does not match format")
        else
          var m := SkipSpace(s, k + 1);
          if m < 0 then Err("unexpected newline")
          else if m == |s| then Err("unexpected EOF")
          else Ok(Token(n, s[m..WordEnd(s, m)]))
  }

  /** `fmt.Sprintf("%d:%s", padding, payload)` for a non-negative count. */
  function FormatToken(padding: nat, payload: string): string {
    Decimal(padding) + ":" + payload
  }

  lemma {:induction false} DigitsEndOfPrefix(a: string, b: string, i: nat)
    requires i <= |a| && AllDigits(a) && |b| > 0 && !IsDigit(b[0])
    ensures DigitsEnd(a + b, i) == |a|
    decreases |a| - i
  {
    if i < |a| {
      DigitsEndOfPrefix(a, b, i + 1);
    }
  }

  lemma {:induction false} WordEndOfSuffix(s: string, i: nat)
    requires i <= |s| && NoSpace(s[i..])
    ensures WordEnd(s, i) == |s|
    decreases |s| - i
  {
    if i < |s| {
      assert s[i + 1..] == s[i..][1..];
      WordEndOfSuffix(s, i + 1);
    }
  }

  /** Scanning a formatted token gives back its count and its word. */
  lemma ParseFormat(padding: nat, payload: string)
    requires padding <= MaxInt && |payload| > 0 && NoSpace(payload)
    ensures ParseToken(FormatToken(padding, payload)) == Ok(Token(padding, payload))
  {
    var d := Decimal(padding);
    var s := FormatToken(padding, payload);
    assert s == d + (":" + payload);
    NumberPrefix(padding, ":" + payload);
    DecimalValue(padding);
    assert s[|d| + 1..] == payload;
    WordSuffix(s, |d| + 1);
    ParseUnsigned(s, |d|, |d| + 1);
  }

  /** The scan of an unsigned count, the colon and a word. */
  lemma ParseUnsigned(s: string, k: nat, m: nat)
    requires SkipSpace(s, 0) == 0 && 0 < k < |s| && IsDigit(s[0])
    requires DigitsEnd(s, 0) == k && DigitsValue(s[0..k]) <= MaxInt && s[k] == ':'
    requires SkipSpace(s, k + 1) == m && m < |s|
    ensures ParseToken(s) == Ok(Token(DigitsValue(s[0..k]), s[m..WordEnd(s, m)]))
  {
  }

  /** A formatted count followed by `rest` scans as that count, up to `rest`. */
  lemma NumberPrefix(n: nat, rest: string)
    requires |rest| > 0 && rest[0] == ':'
    ensures var d, s := Decimal(n), Decimal(n) + rest;
      && SkipSpace(s, 0) == 0 && IsDigit(s[0])
      && DigitsEnd(s, 0) == |d| && s[0..|d|] == d && s[|d|] == ':'
  {
    var d, s := Decimal(n), Decimal(n) + rest;
    assert s[0] == d[0];
    DigitsEndOfPrefix(d, rest, 0);
    assert s[..|d|] == d;
  }

  /** A blank-free tail from `m` on is the word the scanner reads there. */
  lemma WordSuffix(s: string, m: nat)
    requires m < |s| && NoSpace(s[m..])
    ensures SkipSpace(s, m) == m && WordEnd(s, m) == |s| && s[m..WordEnd(s, m)] == s[m..]
  {
    assert s[m] == s[m..][0];
    WordEndOfSuffix(s, m);
  }
}
