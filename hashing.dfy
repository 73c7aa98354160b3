/** Fingerprints.  The ledger's `sha3` helper is SHA-384 (section 6.5 of
    FIPS 180-4) returned as a lower-case hexadecimal digest.  The digest
    algorithm itself is not modelled: it is a `Hasher`, a function value from
    a message to its raw digest bytes of which nothing is known (not
    even that it is injective), and `hexdigest()` is modelled on top of it as
    `Hex`. */
module Hashing {
  import opened Text

  /** The digits `hexdigest()` uses: lower-case hexadecimal. */
  predicate IsHexDigit(c: char) {
    '0' <= c <= '9' || 'a' <= c <= 'f'
  }

  /** SHA-384 produces 48 bytes, printed as 96 hexadecimal characters. */
  const DigestLength: nat := 96

  predicate IsHexDigest(s: string) {
    forall i :: 0 <= i < |s| ==> IsHexDigit(s[i])
  }

  /** `c * n` in Python: `n` copies of `c`. */
  function Repeat(c: char, n: nat): (r: string)
    ensures |r| == n && forall i :: 0 <= i < n ==> r[i] == c
  {
    seq(n, _ => c)
  }

  /** `ZERO_HASH`: the predecessor recorded in a genesis block. */
  const ZeroHash: string := Repeat('0', DigestLength)

  /** SHA-384's digest is 48 bytes long. */
  const DigestSize: nat := 48

  /** A message digest: from the bytes fed to it to the raw digest bytes. */
  type Hasher = seq<byte> -> seq<byte>

  /** `digest` gives digests of SHA-384's size. */
  ghost predicate HasDigestSize(digest: Hasher) {
    forall m :: |digest(m)| == DigestSize
  }

  function HexDigit(n: int): (c: char)
    requires 0 <= n < 16
    ensures IsHexDigit(c)
  {
    if n < 10 then ('0' as int + n) as char else ('a' as int + n - 10) as char
  }

  /** `hexdigest()`: two lower-case hexadecimal digits per byte. */
  function Hex(d: seq<byte>): (s: string)
    ensures |s| == 2 * |d|
  {
    if d == [] then [] else [HexDigit(d[0] as int / 16), HexDigit(d[0] as int % 16)] + Hex(d[1..])
  }

  /** Every character of `Hex(d)` is a hexadecimal digit. */
  lemma {:induction false} HexIsHexDigest(d: seq<byte>)
    ensures IsHexDigest(Hex(d))
  {
    if d != [] {
      HexIsHexDigest(d[1..]);
      var s := Hex(d);
      forall i | 0 <= i < |s|
        ensures IsHexDigit(s[i])
      {
        if i >= 2 {
          assert s[i] == Hex(d[1..])[i - 2];
        }
      }
    }
  }

  /** A hexadecimal digest spans one line: it holds no newline. */
  lemma {:induction false} HexDigestHasNoNewline(s: string)
    requires IsHexDigest(s)
    ensures OneLine(s)
  {
  }

  lemma {:induction false} ZeroHashIsHexDigest()
    ensures IsHexDigest(ZeroHash) && OneLine(ZeroHash)
  {
    HexDigestHasNoNewline(ZeroHash);
  }

  /** The message a hash context has seen after `update` was called with
      each of `parts` in turn. */
  function Concat(parts: seq<seq<byte>>): (m: seq<byte>)
  {
    if parts == [] then [] else Concat(parts[..|parts| - 1]) + parts[|parts| - 1]
  }

  /** `sha3(*parts)`: the digest of the parts fed in order to one context. */
  function Sha3(digest: Hasher, parts: seq<seq<byte>>): (r: string)
    ensures IsHexDigest(r) && |r| == 2 * |digest(Concat(parts))|
  {
    HexIsHexDigest(digest(Concat(parts)));
    Hex(digest(Concat(parts)))
  }

  /** A `sha3` fingerprint is hexadecimal text, so it fits on one line. */
  lemma {:induction false} Sha3IsHexDigest(digest: Hasher, parts: seq<seq<byte>>)
    ensures IsHexDigest(Sha3(digest, parts)) && OneLine(Sha3(digest, parts))
  {
    HexIsHexDigest(digest(Concat(parts)));
    HexDigestHasNoNewline(Sha3(digest, parts));
  }

  /** With a digest of SHA-384's size, a `sha3` fingerprint is as long as
      ZERO_HASH, and in particular never empty. */
  lemma {:induction false} Sha3Length(digest: Hasher, parts: seq<seq<byte>>)
    requires HasDigestSize(digest)
    ensures |Sha3(digest, parts)| == DigestLength == |ZeroHash|
  {
    assert |digest(Concat(parts))| == DigestSize;
  }

  /** Two parts are hashed as their concatenation: the framing between them
      is not part of what is fingerprinted. */
  lemma {:induction false} Sha3Pair(digest: Hasher, a: seq<byte>, b: seq<byte>)
    ensures Sha3(digest, [a, b]) == Hex(digest(a + b))
  {
    ConcatPair(a, b);
  }

  lemma {:induction false} ConcatPair(a: seq<byte>, b: seq<byte>)
    ensures Concat([a, b]) == a + b
  {
    assert [a, b][..1] == [a];
    assert [a][..0] == [];
    assert Concat([a]) == a;
  }

  /** The `for x in args: m.update(x)` loop of `sha3`, feeding each part to
      one running context and taking the digest at the end. */
  method Sha3Streamed(digest: Hasher, parts: seq<seq<byte>>) returns (h: string)
    ensures h == Hex(digest(Concat(parts)))
    ensures IsHexDigest(h)
  {
    var seen: seq<byte> := [];
    for i := 0 to |parts|
      invariant seen == Concat(parts[..i])
    {
      assert parts[..i + 1][..i] == parts[..i];
      seen := seen + parts[i];
    }
    assert parts[..|parts|] == parts;
    h := Hex(digest(seen));
    HexIsHexDigest(digest(seen));
  }
}
