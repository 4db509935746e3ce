/** The game-id generator of game_store.go: one process-wide running SHA-1
    hash (`gameHasher`) into which every request writes, and whose current
    digest, rendered as lower-case hex, names a new game. SHA-1 (FIPS 180-4)
    itself is not modelled: the digest is a function of everything written so
    far that yields 20 bytes. */
module GameHasher {
  import opened Bytes
  import Store

  /** SHA-1 digests are 20 bytes long. */
  const DigestSize: nat := 20

  type Sum = d: seq<byte> | |d| == DigestSize witness Zeros(DigestSize)

  /** The digest of everything written so far. */
  type Digest = seq<byte> -> Sum

  function HexDigit(d: nat): (c: char)
    requires d < 16
    ensures IsHexDigit(c)
  {
    if d < 10 then (48 + d) as char else (87 + d) as char
  }

  predicate IsHexDigit(c: char) { '0' <= c <= '9' || 'a' <= c <= 'f' }

  /** `fmt.Sprintf("%x", b)`: two lower-case hex digits per byte. */
  function Hex(b: seq<byte>): (r: string)
    ensures |r| == 2 * |b|
    ensures forall i :: 0 <= i < |r| ==> IsHexDigit(r[i])
  {
    if |b| == 0 then "" else [HexDigit(b[0] / 16), HexDigit(b[0] % 16)] + Hex(b[1..])
  }

  /** Distinct digests give distinct names. */
  lemma {:induction false} HexInjective(a: seq<byte>, b: seq<byte>)
    requires Hex(a) == Hex(b)
    ensures a == b
  {
    if |a| > 0 {
      assert Hex(a)[2..] == Hex(a[1..]) && Hex(b)[2..] == Hex(b[1..]);
      assert HexDigit(a[0] / 16) == HexDigit(b[0] / 16) && HexDigit(a[0] % 16) == HexDigit(b[0] % 16);
      assert a[0] == a[0] / 16 * 16 + a[0] % 16;
      HexInjective(a[1..], b[1..]);
      assert a == [a[0]] + a[1..];
      assert b == [b[0]] + b[1..];
    }
  }

  /** The bytes the retry loop writes after `n` failed attempts: `i & 0xFF` for
      i = 0 .. n-1. */
  function RetryBytes(n: nat): (r: seq<byte>)
    ensures |r| == n
  {
    seq(n, i => i % 256)
  }

  /** The name the generator yields after `prefix` and `n` retry bytes. */
  function Candidate(sum: Digest, prefix: seq<byte>, n: nat): string
  {
    Hex(sum(prefix + RetryBytes(n)))
  }

  /** That name is already a stored key. */
  predicate Taken(files: map<string, seq<byte>>, sum: Digest, prefix: seq<byte>, n: nat)
  {
    Candidate(sum, prefix, n) in files
  }

  class GameHasher {
    /** Everything written into the running hash since the process started. */
    var written: seq<byte>
    const sum: Digest
    /** The store whose keys a new name must avoid. */
    const store: Store.Store

    /** `init()` seeds the hash with the start-up time stamp `seed`. */
    constructor (sum: Digest, store: Store.Store, seed: seq<byte>)
      ensures this.sum == sum && this.store == store && written == seed
    {
      this.sum := sum;
      this.store := store;
      written := seed;
    }

    /** Some number of retries yields a name that is not a stored key, which
        is what the endless retry loop needs to stop. */
    ghost predicate CanMint(name: string)
      reads this, store
    {
      exists n: nat :: !Taken(store.files, sum, written + ToBytes(name), n)
    }

    /** `NewGameHash` (game_store.go:30-45): writes the player name, then tries
        the current digest and writes one more byte per taken name. */
    method NewGameHash(playerName: string) returns (shash: string)
      requires CanMint(playerName)
      modifies this
      ensures shash !in store.files
      ensures |shash| == 2 * DigestSize && shash == Hex(sum(written))
      ensures exists n: nat ::
        && written == old(written) + ToBytes(playerName) + RetryBytes(n)
        && forall k: nat :: k < n ==> Taken(store.files, sum, old(written) + ToBytes(playerName), k)
    {
      ghost var prefix := written + ToBytes(playerName);
      ghost var files := store.files;
      ghost var bound: nat :| !Taken(files, sum, prefix, bound);
      written := written + ToBytes(playerName);
      assert prefix + RetryBytes(0) == prefix;
      var i := 0;
      while true
        invariant 0 <= i <= bound
        invariant written == prefix + RetryBytes(i)
        invariant store.files == files
        invariant forall k: nat :: k < i ==> Taken(files, sum, prefix, k)
        decreases bound - i
      {
        var hash := sum(written);
        shash := Hex(hash);
        assert shash == Candidate(sum, prefix, i);
        var taken := store.Contains(shash);
        if !taken {
          assert written == old(written) + ToBytes(playerName) + RetryBytes(i);
          return;
        }
        assert i != bound;
        assert Taken(files, sum, prefix, i);
        written := written + [i % 256];
        assert RetryBytes(i + 1) == RetryBytes(i) + [i % 256];
        i := i + 1;
      }
    }
  }
}
