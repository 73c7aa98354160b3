/** The two record codecs of the ledger: blocks, which are content-addressed,
    and the description, a two-line pointer record `genesis\nhead`.  Building
    a record is pure; parsing one models what `load_block` and `load_descr`
    do with the bytes they read: take the first line (`readline()`), drop its
    last byte (`[:-1]`), decode it, and rebuild the record from the parts. */
module Codec {
  import opened Text
  import opened Hashing

  /** The ledger's exceptions: InvalidBlockchainException (no description
      file), BlockNotFoundException (no block file), HashDoNotMatchException
      (`add` refused a proposed hash), and the UnicodeDecodeError that
      `decode` raises on bytes that are not UTF-8. */
  datatype Error = InvalidBlockchain | BlockNotFound | HashDoNotMatch | UnicodeDecode

  datatype Result<+T> = Ok(value: T) | Err(error: Error) {
    predicate IsFailure() {
      Err?
    }

    function PropagateFailure<U>(): Result<U>
      requires Err?
    {
      Err(error)
    }

    function Extract(): T
      requires Ok?
    {
      value
    }
  }

  /** A block: its hash, its predecessor's hash, its payload and the bytes
      stored for it on disk. */
  datatype Block = Block(hash: string, previous_hash: string, payload: seq<byte>, bytes: seq<byte>)

  /** A description: the genesis hash, the head hash and its on-disk bytes. */
  datatype Descr = Descr(genesis_hash: string, head_hash: string, bytes: seq<byte>)

  // ---------------------------------------------------------------------
  // Reading lines out of a byte stream.

  /** Index of the first newline byte of `b`, or `|b|` when there is none. */
  function NewlineIndex(b: seq<byte>): (i: nat)
    ensures i <= |b|
    ensures i < |b| ==> b[i] == Newline
    ensures forall j :: 0 <= j < i ==> b[j] != Newline
  {
    if b == [] then 0
    else if b[0] == Newline then 0
    else
      1 + NewlineIndex(b[1..])
  }

  /** `f.readline()` on a file holding `b`: the first line with its newline,
      if it has one, and what remains to be read. */
  function ReadLine(b: seq<byte>): (r: (seq<byte>, seq<byte>))
    ensures r.0 + r.1 == b
    ensures !NoNewline(b) ==> |r.0| > 0 && r.0[|r.0| - 1] == Newline
    ensures !NoNewline(b) ==> forall j :: 0 <= j < |r.0| - 1 ==> r.0[j] != Newline
    ensures NoNewline(b) ==> r.0 == b && r.1 == []
  {
    var i := NewlineIndex(b);
    if i < |b| then
      (b[..i + 1], b[i + 1..])
    else
      assert b[..i] == b;
      (b, [])
  }

  /** Python's `s[:-1]`: all but the last element; empty stays empty. */
  function DropLast<T>(s: seq<T>): (r: seq<T>)
    ensures s != [] ==> s == r + [s[|s| - 1]]
    ensures s == [] ==> r == []
  {
    if s == [] then [] else s[..|s| - 1]
  }

  lemma {:induction false} NewlineIndexAfter(a: seq<byte>, rest: seq<byte>)
    requires NoNewline(a)
    ensures NewlineIndex(a + [Newline] + rest) == |a|
  {
    if a != [] {
      assert (a + [Newline] + rest)[1..] == a[1..] + [Newline] + rest;
      NewlineIndexAfter(a[1..], rest);
    }
  }

  lemma {:induction false} NewlineIndexExtend(a: seq<byte>, tail: seq<byte>)
    requires !NoNewline(a)
    ensures NewlineIndex(a + tail) == NewlineIndex(a)
  {
    if a[0] != Newline {
      assert (a + tail)[1..] == a[1..] + tail;
      NewlineIndexExtend(a[1..], tail);
    }
  }

  /** A line without a newline, followed by one, is read whole. */
  lemma {:induction false} ReadLineAfter(a: seq<byte>, rest: seq<byte>)
    requires NoNewline(a)
    ensures ReadLine(a + [Newline] + rest) == (a + [Newline], rest)
  {
    NewlineIndexAfter(a, rest);
    var b := a + [Newline] + rest;
    assert b[..|a| + 1] == a + [Newline];
    assert b[|a| + 1..] == rest;
  }

  /** Whatever follows does not change where the first line ends. */
  lemma {:induction false} ReadLineExtend(a: seq<byte>, tail: seq<byte>)
    requires !NoNewline(a)
    ensures ReadLine(a + tail).0 == ReadLine(a).0
  {
    NewlineIndexExtend(a, tail);
    var i := NewlineIndex(a);
    assert (a + tail)[..i + 1] == a[..i + 1];
  }

  // ---------------------------------------------------------------------
  // Blocks.

  /** `make_block(previous_hash, payload)`: the block's hash fingerprints the
      encoded predecessor followed by the payload; the stored bytes are the
      predecessor, a newline, and the payload verbatim. */
  function MakeBlock(digest: Hasher, previousHash: string, payload: seq<byte>): (b: Block)
    ensures b.previous_hash == previousHash && b.payload == payload
  {
    Block(Sha3(digest, [Encode(previousHash), payload]), previousHash, payload,
          Encode(previousHash) + [Newline] + payload)
  }

  /** A block's hash is a hexadecimal digest, so it fits on one line. */
  lemma {:induction false} BlockHashIsHexDigest(digest: Hasher, previousHash: string, payload: seq<byte>)
    ensures IsHexDigest(MakeBlock(digest, previousHash, payload).hash)
    ensures OneLine(MakeBlock(digest, previousHash, payload).hash)
  {
    Sha3IsHexDigest(digest, [Encode(previousHash), payload]);
  }

  /** What `load_block` makes of the bytes of a block file: the first line
      minus its last byte is the predecessor, the rest is the payload, and
      the hash is computed again from these rather than trusted. */
  function ParseBlock(digest: Hasher, raw: seq<byte>): (r: Result<Block>)
    ensures r.Err? ==> r.error == UnicodeDecode
    ensures r.Ok? ==> r.value == MakeBlock(digest, r.value.previous_hash, r.value.payload)
    ensures r.Ok? ==> raw == ReadLine(raw).0 + r.value.payload
    ensures r.Ok? ==> Encode(r.value.previous_hash) == DropLast(ReadLine(raw).0)
    ensures r.Ok? ==> OneLine(r.value.previous_hash)
    ensures Decode(DropLast(ReadLine(raw).0)).Some? ==> r.Ok?
  {
    var (line, rest) := ReadLine(raw);
    match Decode(DropLast(line))
    case None => Err(UnicodeDecode)
    case Some(prev) =>
      EncodeDecode(DropLast(line));
      EncodeNewline(prev);
      Ok(MakeBlock(digest, prev, rest))
  }

  /** Loading what `make_block` stored gives back the same block exactly
      when the predecessor fits on one line (as `ZERO_HASH` and every hex
      digest do); a predecessor with a newline is cut at it. */
  lemma {:induction false} BlockRoundTrip(digest: Hasher, previousHash: string, payload: seq<byte>)
    ensures var b := MakeBlock(digest, previousHash, payload);
      ParseBlock(digest, b.bytes) == Ok(b) <==> OneLine(previousHash)
  {
    if OneLine(previousHash) {
      BlockRoundTripOneLine(digest, previousHash, payload);
    } else {
      BlockRoundTripCut(digest, previousHash, payload);
    }
  }

  lemma {:induction false} BlockRoundTripOneLine(digest: Hasher, previousHash: string, payload: seq<byte>)
    requires OneLine(previousHash)
    ensures ParseBlock(digest, MakeBlock(digest, previousHash, payload).bytes)
         == Ok(MakeBlock(digest, previousHash, payload))
  {
    var e := Encode(previousHash);
    EncodeNewline(previousHash);
    ReadLineAfter(e, payload);
    assert DropLast(e + [Newline]) == e;
    DecodeEncode(previousHash);
  }

  lemma {:induction false} BlockRoundTripCut(digest: Hasher, previousHash: string, payload: seq<byte>)
    requires !OneLine(previousHash)
    ensures var r := ParseBlock(digest, MakeBlock(digest, previousHash, payload).bytes);
      r.Ok? ==> |Encode(r.value.previous_hash)| < |Encode(previousHash)|
  {
    hide ParseBlock, Sha3, Decode;
    var e := Encode(previousHash);
    EncodeNewline(previousHash);
    assert MakeBlock(digest, previousHash, payload).bytes == e + ([Newline] + payload);
    FirstLineCut(e, [Newline] + payload);
  }

  /** When `a` already holds a newline, the first line of `a + tail`, minus
      its last byte, is shorter than `a`. */
  lemma {:induction false} FirstLineCut(a: seq<byte>, tail: seq<byte>)
    requires !NoNewline(a)
    ensures |DropLast(ReadLine(a + tail).0)| < |a|
  {
    ReadLineExtend(a, tail);
    var line := ReadLine(a).0;
    if |line| == |a| {
      assert line == a;
      assert a[|a| - 1] == Newline;
    }
  }

  /** Loading gives back the bytes it read exactly when they hold a newline;
      a block file without one loses its last byte and gains a newline. */
  lemma {:induction false} ReparseBlockBytes(digest: Hasher, raw: seq<byte>)
    requires ParseBlock(digest, raw).Ok?
    ensures ParseBlock(digest, raw).value.bytes == raw <==> !NoNewline(raw)
  {
    var b := ParseBlock(digest, raw).value;
    var (line, rest) := ReadLine(raw);
    if !NoNewline(raw) {
      assert DropLast(line) + [Newline] == line;
      assert b.bytes == line + rest;
    } else {
      assert b.bytes[|Encode(b.previous_hash)|] == Newline;
    }
  }

  // ---------------------------------------------------------------------
  // Descriptions.

  /** `make_descr(genesis_hash, head_hash)`: the two hashes on two lines,
      the second without a terminating newline. */
  function MakeDescr(genesisHash: string, headHash: string): (d: Descr)
    ensures d.genesis_hash == genesisHash && d.head_hash == headHash
  {
    Descr(genesisHash, headHash, Encode(genesisHash + "\n" + headHash))
  }

  /** `descr_with_head_hash(descr, head_hash)`: a new description that keeps
      the genesis and replaces the head. */
  function DescrWithHeadHash(d: Descr, headHash: string): (r: Descr)
    ensures r.genesis_hash == d.genesis_hash && r.head_hash == headHash
    ensures r == MakeDescr(r.genesis_hash, r.head_hash)
    ensures d == MakeDescr(d.genesis_hash, d.head_hash) && headHash == d.head_hash ==> r == d
  {
    MakeDescr(d.genesis_hash, headHash)
  }

  /** What `load_descr` makes of the bytes of the description file: the
      first line minus its last byte is the genesis hash, the second line
      (with its newline, if it has one) the head hash. */
  function ParseDescr(raw: seq<byte>): (r: Result<Descr>)
    ensures r.Err? ==> r.error == UnicodeDecode
    ensures r.Ok? ==> r.value == MakeDescr(r.value.genesis_hash, r.value.head_hash)
    ensures r.Ok? ==> OneLine(r.value.genesis_hash)
    ensures r.Ok? ==> Encode(r.value.genesis_hash) == DropLast(ReadLine(raw).0)
    ensures r.Ok? ==> Encode(r.value.head_hash) == ReadLine(ReadLine(raw).1).0
    ensures Decode(DropLast(ReadLine(raw).0)).Some? && Decode(ReadLine(ReadLine(raw).1).0).Some? ==> r.Ok?
  {
    var (first, rest) := ReadLine(raw);
    var (second, _) := ReadLine(rest);
    match Decode(DropLast(first))
    case None => Err(UnicodeDecode)
    case Some(genesisHash) =>
      match Decode(second)
      case None => Err(UnicodeDecode)
      case Some(headHash) =>
        EncodeDecode(DropLast(first));
        EncodeDecode(second);
        EncodeNewline(genesisHash);
        Ok(MakeDescr(genesisHash, headHash))
  }

  /** The description's bytes are the encoded genesis hash, a newline
      byte and the encoded head hash. */
  lemma {:induction false} DescrBytes(genesisHash: string, headHash: string)
    ensures MakeDescr(genesisHash, headHash).bytes == Encode(genesisHash) + [Newline] + Encode(headHash)
  {
    EncodeAppend(genesisHash + "\n", headHash);
    EncodeAppend(genesisHash, "\n");
    assert Encode("\n") == [Newline] by {
      assert "\n"[1..] == [];
    }
  }

  /** Loading what `make_descr` wrote gives back both hashes when neither
      holds a newline. */
  lemma {:induction false} DescrRoundTrip(genesisHash: string, headHash: string)
    requires OneLine(genesisHash) && OneLine(headHash)
    ensures ParseDescr(MakeDescr(genesisHash, headHash).bytes) == Ok(MakeDescr(genesisHash, headHash))
  {
    var g, h := Encode(genesisHash), Encode(headHash);
    DescrBytes(genesisHash, headHash);
    EncodeNewline(genesisHash);
    EncodeNewline(headHash);
    ReadLineAfter(g, h);
    assert DropLast(g + [Newline]) == g;
    assert ReadLine(h) == (h, []);
    DecodeEncode(genesisHash);
    DecodeEncode(headHash);
  }
}
