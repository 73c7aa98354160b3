/** The repository's own usage scenarios, each run on a fresh, empty root
    directory.  The scenarios call `add(dir, payload)`, a signature `add`
    no longer has; they are played here with `append`, which does what they
    expect, and with `add` given the hash a peer would have proposed. */
module Scenarios {
  import opened Text
  import opened Hashing
  import opened Codec
  import opened Ledger

  /** The genesis block a fresh `init` writes for `genesisPayload`. */
  function Genesis(digest: Hasher, genesisPayload: seq<byte>): (g: Block)
    ensures g.previous_hash == ZeroHash && g.payload == genesisPayload
  {
    MakeBlock(digest, ZeroHash, genesisPayload)
  }

  /** The chain of one payload is its genesis block; the chain of two
      adds the block linked to it, and has distinct hashes unless those
      two collide. */
  lemma {:induction false} TwoBlocks(digest: Hasher, genesisPayload: seq<byte>, payload: seq<byte>)
    ensures var g := Genesis(digest, genesisPayload);
      var b := MakeBlock(digest, g.hash, payload);
      && ChainOf(digest, [genesisPayload]) == [g]
      && ChainOf(digest, [genesisPayload, payload]) == [g, b]
      && (Distinct([g, b]) <==> g.hash != b.hash)
      && OneLine(g.hash) && OneLine(b.hash)
  {
    var g := Genesis(digest, genesisPayload);
    var b := MakeBlock(digest, g.hash, payload);
    assert BlockAt(digest, [genesisPayload], 0) == g;
    assert ChainOf(digest, [genesisPayload]) == [g];
    ChainExtend(digest, [genesisPayload], payload);
    assert [genesisPayload] + [payload] == [genesisPayload, payload];
    if g.hash == b.hash {
      assert [g, b][0].hash == [g, b][1].hash;
    }
    BlockHashIsHexDigest(digest, ZeroHash, genesisPayload);
    BlockHashIsHexDigest(digest, g.hash, payload);
  }

  /** `init` on an empty directory: a one-block chain. */
  method InitEmpty(digest: Hasher, genesisPayload: seq<byte>) returns (root: Root, genesis: string)
    ensures fresh(root) && root.digest == digest
    ensures var g := Genesis(digest, genesisPayload);
      && genesis == g.hash
      && root.Valid() && root.descr == Some(MakeDescr(g.hash, g.hash).bytes)
      && root.blocks == map[g.hash := g.bytes]
      && root.Payloads == [genesisPayload]
  {
    root := new Root.Empty(digest);
    genesis := root.Init(genesisPayload);
  }

  /** `init` then `append` on an empty directory: the directory holds the
      two-block chain, and is a valid one unless the two hashes collide. */
  method InitThenAppend(digest: Hasher, genesisPayload: seq<byte>, payload: seq<byte>)
    returns (root: Root, genesis: string, h: Result<string>)
    ensures fresh(root) && root.digest == digest
    ensures var g := Genesis(digest, genesisPayload);
      var b := MakeBlock(digest, g.hash, payload);
      && genesis == g.hash && h == Ok(b.hash)
      && root.Chain() == [g, b]
      && root.descr == Some(MakeDescr(g.hash, b.hash).bytes)
      && root.blocks == map[g.hash := g.bytes][b.hash := b.bytes]
      && (root.Valid() <==> g.hash != b.hash)
  {
    hide MakeBlock, Root.PrepareBlock, Root.Describe, Root.LoadBlock, ParseDescr, ParseBlock, MakeDescr, Encode, OnDisk;
    root, genesis := InitEmpty(digest, genesisPayload);
    TwoBlocks(digest, genesisPayload, payload);
    root.PrepareOnChain(payload);
    h := root.Append(payload);
    assert root.Payloads == [genesisPayload, payload];
  }

  /** A freshly initialised chain lists nothing: genesis is not shown. */
  method InitThenList(digest: Hasher, genesisPayload: seq<byte>) returns (ls: Result<seq<Block>>)
    ensures ls == Ok([])
  {
    var root := new Root.Empty(digest);
    var _ := root.Init(genesisPayload);
    ls := root.List(false);
  }

  /** The hash `init` returns names the genesis payload. */
  method InitThenGetPayload(digest: Hasher, genesisPayload: seq<byte>) returns (p: Result<seq<byte>>)
    ensures p == Ok(genesisPayload)
  {
    var root := new Root.Empty(digest);
    var genesis := root.Init(genesisPayload);
    root.PayloadOfChainBlock(0);
    p := root.GetPayload(genesis);
  }

  /** Appending to a directory that holds no chain fails and writes
      nothing. */
  method AppendWithoutInit(digest: Hasher, payload: seq<byte>) returns (r: Result<string>)
    ensures r == Err(InvalidBlockchain)
  {
    var root := new Root.Empty(digest);
    r := root.Append(payload);
  }

  /** So does adding a block proposed by a peer. */
  method AddWithoutInit(digest: Hasher, proposedHash: string, payload: seq<byte>) returns (r: Result<string>)
    ensures r == Err(InvalidBlockchain)
  {
    var root := new Root.Empty(digest);
    r := root.Add(proposedHash, payload);
  }

  /** Reading a payload where there is no chain is an invalid chain. */
  method GetWithoutInit(digest: Hasher) returns (p: Result<seq<byte>>)
    ensures p == Err(InvalidBlockchain)
  {
    var root := new Root.Empty(digest);
    p := root.GetPayload("42");
  }

  /** On a chain, a hash no block has is a missing block. */
  method GetUnknownHash(digest: Hasher, genesisPayload: seq<byte>) returns (p: Result<seq<byte>>)
    requires HasDigestSize(digest)
    ensures p == Err(BlockNotFound)
  {
    var root := new Root.Empty(digest);
    var genesis := root.Init(genesisPayload);
    p := root.GetPayload("42");
  }

  /** The hash `append` returns names the appended payload. */
  method AppendThenGetPayload(digest: Hasher, genesisPayload: seq<byte>, payload: seq<byte>)
    returns (h: Result<string>, p: Result<seq<byte>>)
    ensures h.Ok? && p == Ok(payload)
  {
    var root, genesis, h' := InitThenAppend(digest, genesisPayload, payload);
    TwoBlocks(digest, genesisPayload, payload);
    BlockRoundTripOneLine(digest, genesis, payload);
    h := h';
    p := root.GetPayload(h.value);
  }

  /** Describing a directory that holds no chain is an invalid chain. */
  method DescribeWithoutInit(digest: Hasher) returns (d: Result<Descr>)
    ensures d == Err(InvalidBlockchain)
  {
    var root := new Root.Empty(digest);
    d := root.Describe();
  }

  /** After `init`, genesis and head are both the hash `init` returned. */
  method DescribeAfterInit(digest: Hasher, genesisPayload: seq<byte>) returns (genesis: string, d: Result<Descr>)
    ensures d.Ok? && d.value.genesis_hash == genesis && d.value.head_hash == genesis
  {
    var root := new Root.Empty(digest);
    genesis := root.Init(genesisPayload);
    root.DescribeChain();
    d := root.Describe();
  }

  /** After `append`, the head is the hash it returned and genesis has not
      moved. */
  method DescribeAfterAppend(digest: Hasher, genesisPayload: seq<byte>, payload: seq<byte>)
    returns (genesis: string, last: Result<string>, d: Result<Descr>)
    ensures last.Ok? && d.Ok? && d.value.genesis_hash == genesis && d.value.head_hash == last.value
  {
    var root;
    root, genesis, last := InitThenAppend(digest, genesisPayload, payload);
    TwoBlocks(digest, genesisPayload, payload);
    DescrRoundTrip(genesis, last.value);
    d := root.Describe();
  }

  /** An appended payload shows up in the list, as its only block, unless
      its hash collides with the genesis hash. */
  method AppendThenList(digest: Hasher, genesisPayload: seq<byte>, payload: seq<byte>)
    returns (ls: Result<seq<Block>>)
    requires MakeBlock(digest, Genesis(digest, genesisPayload).hash, payload).hash
             != Genesis(digest, genesisPayload).hash
    ensures ls.Ok? && |ls.value| == 1 && ls.value[0].payload == payload
  {
    var root, _, _ := InitThenAppend(digest, genesisPayload, payload);
    ls := root.List(false);
  }

  /** `init`, then `add` of the block a peer built on the same genesis
      with the same payload: it is accepted and extends the chain as
      `append` would. */
  method InitThenAddAgreed(digest: Hasher, genesisPayload: seq<byte>, payload: seq<byte>)
    returns (root: Root, r: Result<string>)
    ensures fresh(root) && root.digest == digest
    ensures var g := Genesis(digest, genesisPayload);
      var b := MakeBlock(digest, g.hash, payload);
      && r == Ok(b.hash)
      && root.Chain() == [g, b]
      && (root.Valid() <==> g.hash != b.hash)
  {
    hide MakeBlock, Root.PrepareBlock, Root.Describe, Root.LoadBlock, ParseDescr, ParseBlock, MakeDescr, Encode, OnDisk;
    var genesis;
    root, genesis := InitEmpty(digest, genesisPayload);
    TwoBlocks(digest, genesisPayload, payload);
    root.PrepareOnChain(payload);
    r := root.Add(MakeBlock(digest, genesis, payload).hash, payload);
  }

  /** `init`, then `add` with any other hash: it is refused and the
      directory still holds the one-block chain. */
  method InitThenAddRefused(digest: Hasher, genesisPayload: seq<byte>, proposedHash: string, payload: seq<byte>)
    returns (root: Root, r: Result<string>)
    requires proposedHash != MakeBlock(digest, Genesis(digest, genesisPayload).hash, payload).hash
    ensures fresh(root) && root.digest == digest
    ensures r == Err(HashDoNotMatch)
    ensures root.Valid() && root.descr.Some? && root.Chain() == [Genesis(digest, genesisPayload)]
  {
    hide MakeBlock, Root.PrepareBlock, Root.Describe, Root.LoadBlock, ParseDescr, ParseBlock, MakeDescr, Encode, OnDisk;
    var genesis;
    root, genesis := InitEmpty(digest, genesisPayload);
    TwoBlocks(digest, genesisPayload, payload);
    root.PrepareOnChain(payload);
    r := root.Add(proposedHash, payload);
  }

  /** `add` with the hash a peer computed for the same history and payload
      extends the chain exactly as `append` would; with any other hash it
      is refused and the list stays empty. */
  method AddThenList(digest: Hasher, genesisPayload: seq<byte>, proposedHash: string, payload: seq<byte>)
    returns (r: Result<string>, ls: Result<seq<Block>>)
    requires MakeBlock(digest, Genesis(digest, genesisPayload).hash, payload).hash
             != Genesis(digest, genesisPayload).hash
    ensures var next := MakeBlock(digest, Genesis(digest, genesisPayload).hash, payload);
      if proposedHash == next.hash then r == Ok(next.hash) && ls == Ok([next])
      else r == Err(HashDoNotMatch) && ls == Ok([])
  {
    hide MakeBlock, Root.PrepareBlock, Root.Describe, Root.LoadBlock, ParseDescr, ParseBlock, MakeDescr, Encode;
    var root;
    if proposedHash == MakeBlock(digest, Genesis(digest, genesisPayload).hash, payload).hash {
      root, r := InitThenAddAgreed(digest, genesisPayload, payload);
      ls := root.List(false);
      assert ls.value == [root.Chain()[1]];
    } else {
      root, r := InitThenAddRefused(digest, genesisPayload, proposedHash, payload);
      ls := root.List(false);
    }
  }

  /** `add` is `append` behind a hash check: run on two copies of the same
      directory, `add` with the hash `append` returned leaves the same files
      and returns the same result; with any other hash it is refused and
      writes nothing; where `append` fails, `add` fails the same way. */
  method AddAsAppend(digest: Hasher, descr: Option<seq<byte>>, blocks: map<string, seq<byte>>,
                     proposedHash: string, payload: seq<byte>)
    returns (appended: Result<string>, added: Result<string>, a: Root, b: Root)
    ensures a.digest == digest && b.digest == digest
    ensures appended.Err? ==> added == appended && b.descr == descr && b.blocks == blocks
    ensures appended == Ok(proposedHash) ==> added == appended && b.descr == a.descr && b.blocks == a.blocks
    ensures appended.Ok? && appended.value != proposedHash ==>
      added == Err(HashDoNotMatch) && b.descr == descr && b.blocks == blocks
  {
    hide MakeBlock;
    hide ParseDescr;
    hide MakeDescr;
    hide Encode;
    a := new Root.Mount(digest, descr, blocks);
    ghost var prepared := a.PrepareBlock(payload);
    appended := a.Append(payload);
    b := new Root.Mount(digest, descr, blocks);
    assert b.PrepareBlock(payload) == prepared;
    added := b.Add(proposedHash, payload);
  }
}
