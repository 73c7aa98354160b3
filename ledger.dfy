/** The storage engine of the ledger: one chain per root directory, held as
    a description file `blockchain.desc` and one `<hash>.blck` file per
    block.  A `Root` stands for such a directory: `descr` is the content of
    the description file (None while it does not exist) and `blocks` maps a
    hash to the content of the block file named by it.  The ghost field
    `Payloads` is the chain's history, genesis payload first: the blocks on
    disk are a function of it, `ChainOf`. */
module Ledger {
  import opened Text
  import opened Hashing
  import opened Codec

  /** The hash a new block links to: the head's, or ZERO_HASH for genesis. */
  function TipOf(c: seq<Block>): string {
    if c == [] then ZeroHash else c[|c| - 1].hash
  }

  /** Block `i` of the chain whose payloads, genesis first, are
      `payloads`: made by `make_block` on the hash of block `i - 1`, or on
      ZERO_HASH for genesis. */
  function BlockAt(digest: Hasher, payloads: seq<seq<byte>>, i: nat): Block
    requires i < |payloads|
  {
    MakeBlock(digest, if i == 0 then ZeroHash else BlockAt(digest, payloads, i - 1).hash, payloads[i])
  }

  /** The blocks of the chain whose payloads, genesis first, are
      `payloads`. */
  function ChainOf(digest: Hasher, payloads: seq<seq<byte>>): (c: seq<Block>)
    ensures |c| == |payloads|
    ensures forall i :: 0 <= i < |payloads| ==> c[i] == BlockAt(digest, payloads, i)
  {
    seq(|payloads|, i requires 0 <= i < |payloads| => BlockAt(digest, payloads, i))
  }

  /** No two blocks of `c` share a hash.  Nothing guarantees this: a digest
      collision would break it. */
  ghost predicate Distinct(c: seq<Block>) {
    forall i, j :: 0 <= i < j < |c| ==> c[i].hash != c[j].hash
  }

  /** Every block of `c` is on disk, in the file named by its hash. */
  ghost predicate Stored(c: seq<Block>, blocks: map<string, seq<byte>>) {
    forall i :: 0 <= i < |c| ==> c[i].hash in blocks && blocks[c[i].hash] == c[i].bytes
  }

  /** Head first: each block's predecessor is the block after it. */
  ghost predicate HeadFirst(bs: seq<Block>) {
    forall k :: 0 <= k < |bs| - 1 ==> bs[k].previous_hash == bs[k + 1].hash
  }

  /** Each block of `c` but the first links to the one before it. */
  ghost predicate Linked(c: seq<Block>) {
    forall k :: 0 < k < |c| ==> c[k].previous_hash == c[k - 1].hash
  }

  /** `bs` lists the chain `c` from its head back: to genesis when
      `showGenesis` holds, to the block after it otherwise. */
  ghost predicate Listed(bs: seq<Block>, c: seq<Block>, showGenesis: bool) {
    && |bs| == (if showGenesis then |c| else |c| - 1)
    && forall k :: 0 <= k < |bs| ==> bs[k] == c[|c| - 1 - k]
  }

  /** What a root directory holding the chain `payloads` looks like: no
      description file while there is no chain; otherwise a description
      naming the chain's genesis and head, and every block of the chain
      stored under its own hash, no two of them sharing one. */
  ghost predicate OnDisk(digest: Hasher, descr: Option<seq<byte>>, blocks: map<string, seq<byte>>,
                         payloads: seq<seq<byte>>)
  {
    if descr.None? then payloads == []
    else
      var c := ChainOf(digest, payloads);
      && |payloads| > 0
      && descr.value == MakeDescr(c[0].hash, c[|payloads| - 1].hash).bytes
      && Distinct(c)
      && Stored(c, blocks)
  }

  // ---------------------------------------------------------------------
  // The shape of a chain.

  /** Block `i` of a chain carries payload `i` and links to block `i - 1`,
      the genesis block to ZERO_HASH. */
  lemma {:induction false} ChainLinks(digest: Hasher, payloads: seq<seq<byte>>, i: nat)
    requires i < |payloads|
    ensures var c := ChainOf(digest, payloads);
      c[i] == MakeBlock(digest, if i == 0 then ZeroHash else c[i - 1].hash, payloads[i])
  {
  }

  /** A block depends on the payloads up to its own only: history is
      never rewritten. */
  lemma {:induction false} BlockAtPrefix(digest: Hasher, payloads: seq<seq<byte>>, k: nat, i: nat)
    requires i < k <= |payloads|
    ensures BlockAt(digest, payloads[..k], i) == BlockAt(digest, payloads, i)
  {
    hide MakeBlock;
    assert payloads[..k][i] == payloads[i];
    if i > 0 {
      BlockAtPrefix(digest, payloads, k, i - 1);
    }
  }

  /** The last block of a chain links to the head of the chain before
      it. */
  lemma {:induction false} BlockAtLast(digest: Hasher, payloads: seq<seq<byte>>)
    requires |payloads| > 0
    ensures var n := |payloads|;
      BlockAt(digest, payloads, n - 1)
      == MakeBlock(digest, TipOf(ChainOf(digest, payloads[..n - 1])), payloads[n - 1])
  {
    hide MakeBlock;
    var n := |payloads|;
    if n > 1 {
      BlockAtPrefix(digest, payloads, n - 1, n - 2);
    }
  }

  /** Appending a payload appends one block, linked to the old head, and
      leaves every earlier block as it was. */
  lemma {:induction false} ChainExtend(digest: Hasher, payloads: seq<seq<byte>>, payload: seq<byte>)
    ensures ChainOf(digest, payloads + [payload])
         == ChainOf(digest, payloads) + [MakeBlock(digest, TipOf(ChainOf(digest, payloads)), payload)]
  {
    hide MakeBlock;
    var longer, n := payloads + [payload], |payloads|;
    var c, c' := ChainOf(digest, payloads), ChainOf(digest, longer);
    assert longer[..n] == payloads && longer[n] == payload;
    BlockAtLast(digest, longer);
    forall i | 0 <= i < n
      ensures c'[i] == c[i]
    {
      BlockAtPrefix(digest, longer, n, i);
    }
  }

  /** The first `k` blocks of a chain are the chain of the first `k`
      payloads. */
  lemma {:induction false} ChainPrefix(digest: Hasher, payloads: seq<seq<byte>>, k: nat)
    requires k <= |payloads|
    ensures ChainOf(digest, payloads)[..k] == ChainOf(digest, payloads[..k])
  {
    hide MakeBlock;
    forall i | 0 <= i < k
      ensures BlockAt(digest, payloads[..k], i) == BlockAt(digest, payloads, i)
    {
      BlockAtPrefix(digest, payloads, k, i);
    }
  }

  /** A chain is linked: each block names its predecessor's hash. */
  lemma {:induction false} ChainIsLinked(digest: Hasher, payloads: seq<seq<byte>>)
    ensures Linked(ChainOf(digest, payloads))
  {
    forall k | 0 < k < |payloads|
      ensures ChainOf(digest, payloads)[k].previous_hash == ChainOf(digest, payloads)[k - 1].hash
    {
      ChainLinks(digest, payloads, k);
    }
  }

  /** Listing a linked chain from its head back, to genesis or to the block
      after it, follows the predecessor links. */
  lemma {:induction false} ListedIsHeadFirst(bs: seq<Block>, c: seq<Block>, showGenesis: bool)
    requires Listed(bs, c, showGenesis) && Linked(c)
    ensures HeadFirst(bs)
  {
    forall k | 0 <= k < |bs| - 1
      ensures bs[k].previous_hash == bs[k + 1].hash
    {
      assert bs[k] == c[|c| - 1 - k] && bs[k + 1] == c[|c| - 1 - k - 1];
    }
  }

  /** One step of walking a chain back from its head: the block reached
      next is the next to list. */
  lemma {:induction false} ListedStep(listed: seq<Block>, c: seq<Block>, i: int)
    requires 0 <= i < |c| && |listed| == |c| - 1 - i
    requires forall k :: 0 <= k < |listed| ==> listed[k] == c[|c| - 1 - k]
    ensures forall k :: 0 <= k < |listed| + 1 ==> (listed + [c[i]])[k] == c[|c| - 1 - k]
  {
    forall k | 0 <= k < |listed| + 1
      ensures (listed + [c[i]])[k] == c[|c| - 1 - k]
    {
      if k < |listed| {
        assert (listed + [c[i]])[k] == listed[k];
      }
    }
  }

  /** Listing a chain to the block after genesis, then genesis, lists it
      whole. */
  lemma {:induction false} ListedWithGenesis(bs: seq<Block>, c: seq<Block>)
    requires |c| > 0 && Listed(bs, c, false)
    ensures Listed(bs + [c[0]], c, true)
  {
    forall k | 0 <= k < |bs|
      ensures (bs + [c[0]])[k] == c[|c| - 1 - k]
    {
      assert (bs + [c[0]])[k] == bs[k];
    }
  }

  /** A block can be added to a stored chain without disturbing it when its
      hash is new. */
  lemma {:induction false} StoredExtend(c: seq<Block>, blocks: map<string, seq<byte>>, b: Block)
    requires Stored(c, blocks) && Distinct(c + [b])
    ensures Stored(c + [b], blocks[b.hash := b.bytes])
  {
    forall i | 0 <= i < |c|
      ensures c[i].hash != b.hash
    {
      assert (c + [b])[i] == c[i] && (c + [b])[|c|] == b;
    }
  }

  /** Every hash of a chain is a hexadecimal digest, so it fits on a line. */
  lemma {:induction false} ChainHash(digest: Hasher, payloads: seq<seq<byte>>, i: nat)
    requires i < |payloads|
    ensures IsHexDigest(ChainOf(digest, payloads)[i].hash)
    ensures OneLine(ChainOf(digest, payloads)[i].hash)
  {
    var c := ChainOf(digest, payloads);
    ChainLinks(digest, payloads, i);
    BlockHashIsHexDigest(digest, if i == 0 then ZeroHash else c[i - 1].hash, payloads[i]);
  }

  /** A fresh genesis block and its description make a one-block chain,
      whatever block files were already there. */
  lemma {:induction false} OnDiskGenesis(digest: Hasher, blocks: map<string, seq<byte>>, payload: seq<byte>)
    ensures var g := MakeBlock(digest, ZeroHash, payload);
      OnDisk(digest, Some(MakeDescr(g.hash, g.hash).bytes), blocks[g.hash := g.bytes], [payload])
  {
    assert [payload][..0] == [];
  }

  /** Writing the block linked to the head, and the description naming
      it as head, extends the chain on disk by that block, unless its hash
      is already in the chain. */
  lemma {:induction false} OnDiskExtend(digest: Hasher, d: seq<byte>, blocks: map<string, seq<byte>>,
                                        payloads: seq<seq<byte>>, payload: seq<byte>)
    requires OnDisk(digest, Some(d), blocks, payloads)
    ensures var c := ChainOf(digest, payloads);
      var next := MakeBlock(digest, c[|payloads| - 1].hash, payload);
      && ChainOf(digest, payloads + [payload]) == c + [next]
      && (OnDisk(digest, Some(MakeDescr(c[0].hash, next.hash).bytes), blocks[next.hash := next.bytes],
                 payloads + [payload])
          <==> Distinct(c + [next]))
  {
    hide MakeBlock;
    var c := ChainOf(digest, payloads);
    var next := MakeBlock(digest, c[|payloads| - 1].hash, payload);
    ChainExtend(digest, payloads, payload);
    assert (c + [next])[0] == c[0];
    if Distinct(c + [next]) {
      StoredExtend(c, blocks, next);
    }
  }

  /** The description of a chain on disk loads as its genesis and head. */
  lemma {:induction false} OnDiskDescr(digest: Hasher, d: seq<byte>, blocks: map<string, seq<byte>>, payloads: seq<seq<byte>>)
    requires OnDisk(digest, Some(d), blocks, payloads)
    ensures var c := ChainOf(digest, payloads);
      ParseDescr(d) == Ok(MakeDescr(c[0].hash, c[|payloads| - 1].hash))
  {
    hide MakeBlock, ParseDescr;
    var c := ChainOf(digest, payloads);
    ChainHash(digest, payloads, 0);
    ChainHash(digest, payloads, |payloads| - 1);
    DescrRoundTrip(c[0].hash, c[|payloads| - 1].hash);
  }

  /** The bytes of every block of a chain load back as that block. */
  lemma {:induction false} ChainBlockRoundTrip(digest: Hasher, payloads: seq<seq<byte>>, i: nat)
    requires i < |payloads|
    ensures var c := ChainOf(digest, payloads);
      ParseBlock(digest, c[i].bytes) == Ok(c[i])
  {
    var c := ChainOf(digest, payloads);
    ChainLinks(digest, payloads, i);
    if i == 0 {
      ZeroHashIsHexDigest();
      BlockRoundTripOneLine(digest, ZeroHash, payloads[i]);
    } else {
      ChainHash(digest, payloads, i - 1);
      BlockRoundTripOneLine(digest, c[i - 1].hash, payloads[i]);
    }
  }

  /** Every block of a chain on disk loads back as itself. */
  lemma {:induction false} OnDiskBlock(digest: Hasher, d: seq<byte>, blocks: map<string, seq<byte>>, payloads: seq<seq<byte>>, i: nat)
    requires OnDisk(digest, Some(d), blocks, payloads) && i < |payloads|
    ensures var c := ChainOf(digest, payloads);
      c[i].hash in blocks && ParseBlock(digest, blocks[c[i].hash]) == Ok(c[i])
  {
    ChainBlockRoundTrip(digest, payloads, i);
  }

  // ---------------------------------------------------------------------
  // A root directory.

  class Root {
    /** The digest behind `sha3`, SHA-384 in the source. */
    const digest: Hasher
    /** Content of `blockchain.desc`, None while the file does not exist. */
    var descr: Option<seq<byte>>
    /** Content of each `<hash>.blck` file, by hash. */
    var blocks: map<string, seq<byte>>
    /** The chain's payloads, genesis first. */
    ghost var Payloads: seq<seq<byte>>

    ghost function Chain(): seq<Block>
      reads this
    {
      ChainOf(digest, Payloads)
    }

    /** A directory that was never initialised, or one holding the chain
        `Payloads`. */
    ghost predicate Valid()
      reads this
    {
      OnDisk(digest, descr, blocks, Payloads)
    }

    /** An empty directory. */
    constructor Empty(digest: Hasher)
      ensures this.digest == digest && descr == None && blocks == map[]
      ensures Valid() && Payloads == []
    {
      this.digest := digest;
      descr := None;
      blocks := map[];
      Payloads := [];
    }

    /** A directory with whatever files it already holds. */
    constructor Mount(digest: Hasher, descr: Option<seq<byte>>, blocks: map<string, seq<byte>>)
      ensures this.digest == digest && this.descr == descr && this.blocks == blocks
      ensures Payloads == []
    {
      this.digest := digest;
      this.descr := descr;
      this.blocks := blocks;
      Payloads := [];
    }

    // -------------------------------------------------------------------
    // Reading.

    /** `describe` (`load_descr`): a missing description file is an
        invalid chain. */
    function Describe(): (r: Result<Descr>)
      reads this
      ensures descr.None? ==> r == Err(InvalidBlockchain)
      ensures r.Err? ==> r.error in {InvalidBlockchain, UnicodeDecode}
      ensures r.Ok? ==> OneLine(r.value.genesis_hash)
      ensures descr.Some? ==> r == ParseDescr(descr.value)
    {
      match descr
      case None => Err(InvalidBlockchain)
      case Some(bytes) => ParseDescr(bytes)
    }

    /** `load_block`: a missing block file is a missing block; the hash of
        the block returned is computed again from the file's content. */
    function LoadBlock(hash: string): (r: Result<Block>)
      reads this
      ensures hash !in blocks ==> r == Err(BlockNotFound)
      ensures r.Err? ==> r.error in {BlockNotFound, UnicodeDecode}
      ensures r.Ok? ==> hash in blocks && r.value == MakeBlock(digest, r.value.previous_hash, r.value.payload)
      ensures hash in blocks ==> r == ParseBlock(digest, blocks[hash])
    {
      if hash !in blocks then Err(BlockNotFound) else ParseBlock(digest, blocks[hash])
    }

    /** `get_payload`: the description must exist, then the block; the
        payload is everything after the block file's first line. */
    function GetPayload(hash: string): (r: Result<seq<byte>>)
      reads this
      ensures descr.None? ==> r == Err(InvalidBlockchain)
      ensures descr.Some? && hash !in blocks ==> r == Err(BlockNotFound)
      ensures r.Ok? ==> descr.Some? && hash in blocks && blocks[hash] == ReadLine(blocks[hash]).0 + r.value
      ensures r.Err? ==> r.error in {InvalidBlockchain, BlockNotFound, UnicodeDecode}
      ensures descr.Some? && hash in blocks ==> (r.Ok? <==> ParseBlock(digest, blocks[hash]).Ok?)
      ensures descr.Some? && hash in blocks && r.Err? ==> r.error == UnicodeDecode
    {
      if descr.None? then Err(InvalidBlockchain)
      else
        match LoadBlock(hash)
        case Err(e) => Err(e)
        case Ok(block) => Ok(block.payload)
    }

    /** `prepare_block`: the new block, linked to the current head, and the
        description that makes it the head. */
    function PrepareBlock(payload: seq<byte>): (r: Result<(Descr, Block)>)
      reads this
      ensures descr.None? ==> r == Err(InvalidBlockchain)
      ensures r.Err? ==> r.error in {InvalidBlockchain, UnicodeDecode}
      ensures r.Ok? ==>
        && Describe().Ok?
        && r.value.1 == MakeBlock(digest, Describe().value.head_hash, payload)
        && r.value.0.genesis_hash == Describe().value.genesis_hash
        && r.value.0.head_hash == r.value.1.hash
        && r.value.0 == MakeDescr(r.value.0.genesis_hash, r.value.0.head_hash)
      ensures Describe().Ok? ==> r.Ok?
      ensures Describe().Err? ==> r == Err(Describe().error)
    {
      match Describe()
      case Err(e) => Err(e)
      case Ok(current) =>
        var block := MakeBlock(digest, current.head_hash, payload);
        Ok((DescrWithHeadHash(current, block.hash), block))
    }

    // -------------------------------------------------------------------
    // What a valid directory reads back as.

    /** The description of a chain names its genesis and its head. */
    lemma {:induction false} DescribeChain()
      requires Valid() && descr.Some?
      ensures Describe() == Ok(MakeDescr(Chain()[0].hash, Chain()[|Payloads| - 1].hash))
    {
      OnDiskDescr(digest, descr.value, blocks, Payloads);
    }

    /** Every block of a chain loads back as itself. */
    lemma {:induction false} LoadChainBlock(i: nat)
      requires Valid() && descr.Some? && i < |Payloads|
      ensures LoadBlock(Chain()[i].hash) == Ok(Chain()[i])
    {
      OnDiskBlock(digest, descr.value, blocks, Payloads, i);
    }

    /** `get_payload` of the `i`-th hash of a chain is the `i`-th payload. */
    lemma {:induction false} PayloadOfChainBlock(i: nat)
      requires Valid() && descr.Some? && i < |Payloads|
      ensures GetPayload(Chain()[i].hash) == Ok(Payloads[i])
    {
      LoadChainBlock(i);
      ChainLinks(digest, Payloads, i);
    }

    /** On a chain, the prepared block links to the head and the prepared
        description keeps genesis and makes that block the head. */
    lemma {:induction false} PrepareOnChain(payload: seq<byte>)
      requires Valid() && descr.Some?
      ensures var next := MakeBlock(digest, Chain()[|Payloads| - 1].hash, payload);
        PrepareBlock(payload) == Ok((MakeDescr(Chain()[0].hash, next.hash), next))
    {
      DescribeChain();
    }

    // -------------------------------------------------------------------
    // Writing.

    /** `init`: write the genesis block, linked to ZERO_HASH, and a
        description whose genesis and head are both its hash.  A second
        `init` overwrites the description, as the source does. */
    method Init(genesisPayload: seq<byte>) returns (h: string)
      modifies this
      ensures var genesis := MakeBlock(digest, ZeroHash, genesisPayload);
        && h == genesis.hash
        && descr == Some(MakeDescr(h, h).bytes)
        && blocks == old(blocks)[h := genesis.bytes]
      ensures Valid() && Payloads == [genesisPayload]
    {
      var genesis := MakeBlock(digest, ZeroHash, genesisPayload);
      var d := MakeDescr(genesis.hash, genesis.hash);
      blocks := blocks[genesis.hash := genesis.bytes];
      descr := Some(d.bytes);
      Payloads := [genesisPayload];
      h := genesis.hash;
      OnDiskGenesis(digest, old(blocks), genesisPayload);
    }

    /** `store_new_block`: write the block file and rewrite the
        description.  The ghost `payload` is the one the block was prepared
        for; it joins the history.  When the block and description are the
        ones `prepare_block` made on a chain, the chain grows by that block,
        and stays valid unless the new hash collides with an older one. */
    method StoreNewBlock(newDescr: Descr, block: Block, ghost payload: seq<byte>)
      modifies this
      ensures descr == Some(newDescr.bytes)
      ensures blocks == old(blocks)[block.hash := block.bytes]
      ensures Payloads == old(Payloads) + [payload]
      ensures old(Valid()) && old(descr).Some? && old(PrepareBlock(payload)) == Ok((newDescr, block)) ==>
        && Chain() == old(Chain()) + [block]
        && (Valid() <==> Distinct(Chain()))
    {
      hide MakeBlock;
      if Valid() && descr.Some? && PrepareBlock(payload) == Ok((newDescr, block)) {
        PrepareOnChain(payload);
        OnDiskExtend(digest, descr.value, blocks, Payloads, payload);
      }
      blocks := blocks[block.hash := block.bytes];
      descr := Some(newDescr.bytes);
      Payloads := Payloads + [payload];
    }

    /** `append`: link a new block to the head and make it the head. */
    method Append(payload: seq<byte>) returns (r: Result<string>)
      modifies this
      ensures match old(PrepareBlock(payload))
        case Err(e) =>
          r == Err(e) && descr == old(descr) && blocks == old(blocks) && Payloads == old(Payloads)
        case Ok((newDescr, block)) =>
          && r == Ok(block.hash)
          && descr == Some(newDescr.bytes)
          && blocks == old(blocks)[block.hash := block.bytes]
          && Payloads == old(Payloads) + [payload]
      ensures old(Valid()) && old(descr).Some? ==>
        && Chain() == old(Chain()) + [MakeBlock(digest, old(Chain())[|old(Payloads)| - 1].hash, payload)]
        && (Valid() <==> Distinct(Chain()))
    {
      hide MakeBlock;
      if Valid() && descr.Some? {
        PrepareOnChain(payload);
      }
      var prepared :- PrepareBlock(payload);
      StoreNewBlock(prepared.0, prepared.1, payload);
      r := Ok(prepared.1.hash);
    }

    /** `add`: like `append`, but only when the block it would write has
        the proposed hash; otherwise nothing is written. */
    method Add(proposedHash: string, payload: seq<byte>) returns (r: Result<string>)
      modifies this
      ensures match old(PrepareBlock(payload))
        case Err(e) =>
          r == Err(e) && descr == old(descr) && blocks == old(blocks) && Payloads == old(Payloads)
        case Ok((newDescr, block)) =>
          if block.hash != proposedHash then
            r == Err(HashDoNotMatch) && descr == old(descr) && blocks == old(blocks) && Payloads == old(Payloads)
          else
            && r == Ok(block.hash)
            && descr == Some(newDescr.bytes)
            && blocks == old(blocks)[block.hash := block.bytes]
            && Payloads == old(Payloads) + [payload]
      ensures old(Valid()) && old(descr).Some? ==>
        var next := MakeBlock(digest, old(Chain())[|old(Payloads)| - 1].hash, payload);
        if next.hash != proposedHash then Valid() && Payloads == old(Payloads)
        else Chain() == old(Chain()) + [next] && (Valid() <==> Distinct(Chain()))
    {
      hide MakeBlock;
      if Valid() && descr.Some? {
        PrepareOnChain(payload);
      }
      var prepared :- PrepareBlock(payload);
      if prepared.1.hash != proposedHash {
        return Err(HashDoNotMatch);
      }
      StoreNewBlock(prepared.0, prepared.1, payload);
      r := Ok(prepared.1.hash);
    }

    /** `list`: the blocks from the head back to, but not including,
        genesis, and then genesis when asked for. */
    method List(showGenesis: bool) returns (r: Result<seq<Block>>)
      requires Valid()
      ensures descr.None? ==> r == Err(InvalidBlockchain)
      ensures descr.Some? ==> r.Ok? && Listed(r.value, Chain(), showGenesis)
      ensures r.Ok? ==> HeadFirst(r.value)
    {
      hide MakeBlock, MakeDescr, Encode, ParseDescr, ParseBlock, Walkable, Describe, LoadBlock, Valid, OnDisk;
      if descr.None? {
        return Err(InvalidBlockchain);
      }
      ChainIsWalkable();
      DescribeChain();
      var current_descr := Describe().value;
      var listed := Walk(current_descr.head_hash, current_descr.genesis_hash, Chain());
      if !showGenesis {
        ListedIsHeadFirst(listed, Chain(), false);
        return Ok(listed);
      }
      LoadChainBlock(0);
      var block := LoadBlock(current_descr.genesis_hash).value;
      ListedWithGenesis(listed, Chain());
      ListedIsHeadFirst(listed + [block], Chain(), true);
      r := Ok(listed + [block]);
    }

    /** Every block of `c` loads back as itself, each but the first links
        to the one before it, and only the first has the first's hash. */
    ghost predicate Walkable(c: seq<Block>)
      reads this
    {
      && (forall k :: 0 <= k < |c| ==> LoadBlock(c[k].hash) == Ok(c[k]))
      && Linked(c)
      && (forall k :: 0 < k < |c| ==> c[k].hash != c[0].hash)
    }

    /** The loop of `list`: follow the predecessor links from the head,
        loading each block, until the genesis hash comes up. */
    method Walk(head: string, genesis: string, ghost c: seq<Block>) returns (listed: seq<Block>)
      requires |c| > 0 && Walkable(c)
      requires head == c[|c| - 1].hash && genesis == c[0].hash
      ensures Listed(listed, c, false)
    {
      var current := head;
      listed := [];
      ghost var i := |c| - 1;
      while current != genesis
        invariant 0 <= i < |c|
        invariant current == c[i].hash
        invariant |listed| == |c| - 1 - i
        invariant forall k :: 0 <= k < |listed| ==> listed[k] == c[|c| - 1 - k]
        decreases i
      {
        var block := LoadBlock(current).value;
        assert block == c[i];
        ListedStep(listed, c, i);
        listed := listed + [block];
        current := block.previous_hash;
        i := i - 1;
      }
    }

    /** A chain on disk can be walked. */
    lemma {:induction false} ChainIsWalkable()
      requires Valid() && descr.Some?
      ensures |Payloads| > 0 && Walkable(Chain()) && Linked(Chain())
    {
      hide MakeBlock;
      ChainIsLinked(digest, Payloads);
      forall k | 0 <= k < |Payloads|
        ensures LoadBlock(Chain()[k].hash) == Ok(Chain()[k])
        ensures k > 0 ==> Chain()[k].hash != Chain()[0].hash
      {
        LoadChainBlock(k);
      }
    }

  }
}
