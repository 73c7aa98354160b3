# Ouroboros ledger, modelled in Dafny

Ouroboros keeps an append-only, hash-chained ledger as files in one
directory. Each block is a file named after its hash. The hash fingerprints
the predecessor's hash followed by the block's payload. A small description
file, `blockchain.desc`, names the genesis block and the current head.

The model has five modules:

- `Text` holds the `encode`/`decode` helpers: strict UTF-8 between strings
  and bytes, proved to be mutually inverse.
- `Hashing` holds the `sha3` helper: SHA-384 (section 6.5 of FIPS 180-4)
  printed as a lower-case hexadecimal digest. The digest function is a
  parameter. `hexdigest()` is modelled on top of it.
- `Codec` holds the block and description records: `make_block`,
  `load_block`, `make_descr`, `descr_with_head_hash` and `load_descr`.
  Loading is modelled as what it does to the bytes it reads: `readline()`,
  `[:-1]`, `decode`, and the record rebuilt from those parts.
- `Ledger` holds the storage engine as a class `Root`:
  - its fields are the description file (`descr`, `None` while it does not
    exist) and the block files (`blocks`, a map from hash to bytes);
  - a ghost field `Payloads` holds the history the files encode;
  - `init`, `append`, `add` and `store_new_block` are methods that change
    these fields;
  - `describe`, `load_block`, `get_payload` and `prepare_block` are
    functions of them;
  - `list` is a method whose loop follows the predecessor links back from
    the head.
- `Scenarios` replays the repository's own usage scenarios against the
  model.

The central invariant is `Root.Valid()`. The directory either holds no
description, or its files hold the chain `ChainOf(digest, Payloads)`:
- the description names that chain's first and last hashes;
- every block of the chain is stored under its own hash (other block files
  may be there too: `init` leaves them in place);
- no two blocks of the chain share a hash.

Each block of `ChainOf` is `make_block` on the previous block's hash, and on
ZERO_HASH for genesis. Nothing assumes that the digest is free of
collisions. `append` and `add` are therefore proved to keep the invariant
exactly when the new block's hash is not already in the chain.

The source leaves three choices open; the model follows the code:
- A second `init` overwrites the description. There is no guard.
- `load_descr` reads the head hash with a second `readline()`. Any bytes
  after a second newline are ignored. A trailing newline stays part of the
  head hash.
- `decode` is Python's strict UTF-8 codec, so loading can fail with a
  decode error. The model carries that as a fourth error.

## Model

| member | source | states |
|---|---|---|
| Text.Encode | ouroboros/blockchain/__init__.py:33-36 | a string's UTF-8 encoding is at least as long as the string |
| Text.Decode | ouroboros/blockchain/__init__.py:39-42 | strict UTF-8 decoding, None where Python raises UnicodeDecodeError; a decoded string is never longer than its bytes; Text.DecodeEncode and Text.EncodeDecode state that it inverts `encode` exactly |
| Text.DecodeEncode | ouroboros/blockchain/__init__.py:33-42 | decode(encode(s)) == s for every string |
| Text.EncodeDecode | ouroboros/blockchain/__init__.py:33-42 | wherever decoding succeeds, encode(decode(b)) == b: the decoder accepts exactly the canonical encodings |
| Text.DecodeEncodeChar | ouroboros/blockchain/__init__.py:33-42 | decoding the encoding of one character gives it back and consumes exactly its bytes, whatever follows |
| Text.EncodeDecodeChar | ouroboros/blockchain/__init__.py:33-42 | a character the decoder reads was encoded by exactly the bytes it read |
| Text.EncodeAppend | ouroboros/blockchain/__init__.py:98 | encoding distributes over concatenation, as `encode` of the formatted description relies on |
| Text.EncodeNewline | ouroboros/blockchain/__init__.py:80 | the encoding holds a newline byte exactly when the string holds a newline |
| Text.EncodeCharNewline | ouroboros/blockchain/__init__.py:80 | '\n' encodes to the newline byte alone; every other character's bytes hold no newline byte |
| Hashing.Repeat | ouroboros/blockchain/__init__.py:10 | `c * n` is n copies of c (ZERO_HASH is 96 zeros) |
| Hashing.Hex | ouroboros/blockchain/__init__.py:30 | `hexdigest()` prints two characters per digest byte |
| Hashing.HexIsHexDigest | ouroboros/blockchain/__init__.py:30 | every character of a hexdigest is a lower-case hexadecimal digit |
| Hashing.HexDigestHasNoNewline | ouroboros/blockchain/__init__.py:30 | hexadecimal text holds no newline |
| Hashing.ZeroHashIsHexDigest | ouroboros/blockchain/__init__.py:10 | ZERO_HASH is hexadecimal text on one line, so a genesis block loads back |
| Hashing.Sha3 | ouroboros/blockchain/__init__.py:25-30 | a fingerprint is hexadecimal text of two characters per digest byte of the concatenated parts; Hashing.Sha3Streamed states that the `update` loop computes it |
| Hashing.Sha3IsHexDigest | ouroboros/blockchain/__init__.py:25-30 | every `sha3` fingerprint is hexadecimal text on one line |
| Hashing.Sha3Length | ouroboros/blockchain/__init__.py:25-30 | with a 48-byte digest a fingerprint has 96 characters, as ZERO_HASH does, so it is never empty |
| Hashing.Sha3Pair | ouroboros/blockchain/__init__.py:77 | hashing two parts hashes their concatenation: nothing separates them in what is fingerprinted |
| Hashing.ConcatPair | ouroboros/blockchain/__init__.py:27-28 | feeding two parts to one context feeds their concatenation |
| Hashing.Sha3Streamed | ouroboros/blockchain/__init__.py:25-30 | the `update` loop ends with the digest of all parts in order, printed as hexadecimal |
| Codec.NewlineIndex | ouroboros/blockchain/__init__.py:88 | the first newline byte, or the end: every byte before it is not a newline |
| Codec.ReadLine | ouroboros/blockchain/__init__.py:88 | `readline()` splits the bytes into a first line and the rest; the line ends with the first newline, if there is one, and holds no other |
| Codec.DropLast | ouroboros/blockchain/__init__.py:88 | `[:-1]` removes exactly the last element, and leaves empty input empty |
| Codec.ReadLineAfter | ouroboros/blockchain/__init__.py:88 | a line without a newline followed by one is read whole, and the rest is left |
| Codec.ReadLineExtend | ouroboros/blockchain/__init__.py:108 | whatever follows a newline does not change the first line read |
| Codec.MakeBlock | ouroboros/blockchain/__init__.py:73-83 | the block records its predecessor and payload as given |
| Codec.BlockHashIsHexDigest | ouroboros/blockchain/__init__.py:77 | a block's hash is hexadecimal text on one line |
| Codec.ParseBlock | ouroboros/blockchain/__init__.py:86-88 | a loaded block is always make_block of its parts (the hash is recomputed, not trusted); the payload is everything after the first line; the predecessor is the decoded first line minus its last byte; it fails only with a decode error, and succeeds whenever that line decodes |
| Codec.BlockRoundTrip | ouroboros/blockchain/__init__.py:80-88 | loading make_block's bytes gives back the same block if and only if the predecessor holds no newline |
| Codec.BlockRoundTripOneLine | ouroboros/blockchain/__init__.py:80-88 | a predecessor on one line (ZERO_HASH, any hexdigest) loads back with the same payload and hash |
| Codec.BlockRoundTripCut | ouroboros/blockchain/__init__.py:80-88 | a predecessor with a newline is cut short at it when loaded |
| Codec.FirstLineCut | ouroboros/blockchain/__init__.py:88 | the first line of bytes that already hold a newline, minus its last byte, is shorter than those bytes |
| Codec.ReparseBlockBytes | ouroboros/blockchain/__init__.py:86-88 | a loaded block's bytes are the bytes read if and only if they hold a newline |
| Codec.MakeDescr | ouroboros/blockchain/__init__.py:97-99 | the description records the genesis and head hashes as given |
| Codec.DescrBytes | ouroboros/blockchain/__init__.py:98 | the description's bytes are the encoded genesis hash, one newline byte and the encoded head hash, and nothing after it |
| Codec.DescrWithHeadHash | ouroboros/blockchain/__init__.py:102-103 | genesis is kept and only the head is replaced, and the bytes are those make_descr writes for the two hashes; replacing the head with itself changes nothing |
| Codec.ParseDescr | ouroboros/blockchain/__init__.py:106-108 | a loaded description is always make_descr of its two hashes; the genesis hash encodes to the first line minus its last byte, and the head hash to the whole second line, newline included, with anything after it ignored; it fails only with a decode error, and succeeds whenever both lines decode |
| Codec.DescrRoundTrip | ouroboros/blockchain/__init__.py:97-108 | loading make_descr's bytes gives back both hashes when neither holds a newline |
| Ledger.ChainOf | ouroboros/blockchain/__init__.py:116 | a chain has one block per payload, and block i is the i-th block of the history |
| Ledger.ChainLinks | ouroboros/blockchain/__init__.py:116 | block i carries payload i and is make_block on block i-1's hash, or on ZERO_HASH for genesis |
| Ledger.BlockAtPrefix | ouroboros/blockchain/__init__.py:152 | a block depends only on the payloads up to its own: later blocks never rewrite it |
| Ledger.ChainExtend | ouroboros/blockchain/__init__.py:147-157 | one more payload appends exactly one block, linked to the old head, and leaves every earlier block unchanged |
| Ledger.ChainPrefix | ouroboros/blockchain/__init__.py:147-157 | the first k blocks of a chain are the chain of the first k payloads |
| Ledger.ChainIsLinked | ouroboros/blockchain/__init__.py:136-139 | each block of a chain names the block before it as its predecessor |
| Ledger.ChainHash | ouroboros/blockchain/__init__.py:77 | every hash in a chain is hexadecimal text on one line |
| Ledger.ListedIsHeadFirst | ouroboros/blockchain/__init__.py:129-144 | a chain listed from its head back is head-first: each block's predecessor is the next block listed |
| Ledger.ListedWithGenesis | ouroboros/blockchain/__init__.py:142-144 | the listing without genesis, followed by genesis, lists the whole chain |
| Ledger.StoredExtend | ouroboros/blockchain/__init__.py:163 | writing a block file with a new hash keeps every stored block of the chain |
| Ledger.OnDiskGenesis | ouroboros/blockchain/__init__.py:111-126 | a genesis block and the description naming it twice form a valid one-block chain, whatever block files were already there |
| Ledger.OnDiskExtend | ouroboros/blockchain/__init__.py:160-175 | writing the block linked to the head, and the description naming it as head, makes a valid chain one block longer if and only if its hash is new |
| Ledger.OnDiskDescr | ouroboros/blockchain/__init__.py:106-108 | the description file of a valid chain loads as its genesis and head hashes |
| Ledger.ChainBlockRoundTrip | ouroboros/blockchain/__init__.py:86-88 | the bytes of every block of a chain load back as that block |
| Ledger.OnDiskBlock | ouroboros/blockchain/__init__.py:86-88 | every block of a valid chain is on disk under its hash and loads back as itself |
| Ledger.Root.Describe | ouroboros/blockchain/__init__.py:193-194 | no description file gives InvalidBlockchain; with a description file, the result is exactly what load_descr gives for its bytes, whatever they are; a loaded description's genesis hash is on one line; only that error or a decode error can occur |
| Ledger.Root.LoadBlock | ouroboros/blockchain/__init__.py:86-88 | no file for the hash gives BlockNotFound; otherwise the result is exactly what loading that file's bytes gives, so a loaded block is make_block of its parts |
| Ledger.Root.GetPayload | ouroboros/blockchain/__init__.py:91-94 | no description gives InvalidBlockchain even before the block is looked up; with one, no block file gives BlockNotFound, and a stored block file gives its payload exactly when it loads, and the decode error when it does not; the payload is the file's bytes after the first line; no other error (in particular no hash mismatch) can occur |
| Ledger.Root.PrepareBlock | ouroboros/blockchain/__init__.py:147-157 | no description gives InvalidBlockchain, and a description that does not load gives the very error loading it gives; whenever the description loads, preparing succeeds; the new block links to the current head, and the new description keeps genesis, names that block as head, and has exactly the bytes make_descr writes for those two hashes |
| Ledger.Root.DescribeChain | ouroboros/blockchain/__init__.py:193-194 | on a valid chain, `describe` gives its genesis and head hashes |
| Ledger.Root.LoadChainBlock | ouroboros/blockchain/__init__.py:86-88 | on a valid chain, every block loads back as itself |
| Ledger.Root.PayloadOfChainBlock | ouroboros/blockchain/__init__.py:91-94 | on a valid chain, `get_payload` of the i-th hash is the i-th payload |
| Ledger.Root.PrepareOnChain | ouroboros/blockchain/__init__.py:147-157 | on a valid chain, the prepared block links to the head, and the prepared description keeps genesis and names that block as head |
| Ledger.Root.Init | ouroboros/blockchain/__init__.py:111-126 | returns the genesis hash; writes the genesis block (on ZERO_HASH) and a description whose genesis and head are that hash; overwrites any earlier description; leaves a valid one-block chain |
| Ledger.Root.StoreNewBlock | ouroboros/blockchain/__init__.py:160-165 | writes exactly the block file and the description; with what prepare_block made on a chain, the chain grows by that block and stays valid if and only if its hash is new |
| Ledger.Root.Append | ouroboros/blockchain/__init__.py:168-175 | an error from prepare_block is returned and nothing is written; otherwise it returns the new hash, writes exactly one block file, new or overwritten with the block's bytes, and makes that block the head; on a chain, the chain grows by the block linked to the old head |
| Ledger.Root.Add | ouroboros/blockchain/__init__.py:178-190 | like Append, but when the new block's hash differs from the proposed one it returns HashDoNotMatch and writes nothing, and the chain stays valid |
| Ledger.Root.List | ouroboros/blockchain/__init__.py:129-144 | no description gives InvalidBlockchain; on a chain it lists the blocks from the head back to the one after genesis, then genesis if asked; the listing is head-first |
| Ledger.Root.Walk | ouroboros/blockchain/__init__.py:135-139 | following predecessor links from the head until the genesis hash lists the chain from its head back to the block after genesis |
| Ledger.Root.ChainIsWalkable | ouroboros/blockchain/__init__.py:136-139 | on a valid chain there is at least one block, every block loads, links to its predecessor, and only genesis has the genesis hash, so the walk stops there |
| Scenarios.Genesis | ouroboros/blockchain/__init__.py:116 | the genesis block links to ZERO_HASH and carries the genesis payload |
| Scenarios.TwoBlocks | ouroboros/blockchain/__init__.py:116 | the chain of one payload is its genesis block; the chain of two adds the block linked to it; their hashes are distinct unless those two collide |
| Scenarios.InitEmpty | tests/blockchain/test_blockchain.py:14-15 | init on an empty directory leaves a valid one-block chain and returns its hash |
| Scenarios.InitThenList | tests/blockchain/test_blockchain.py:18-22 | after init, list yields nothing |
| Scenarios.InitThenAppend | tests/blockchain/test_blockchain.py:45-47 | init then append leaves the two-block chain and returns the new hash; it is valid if and only if the two hashes differ |
| Scenarios.AppendThenList | tests/blockchain/test_blockchain.py:25-31 | the appended payload shows up in the list |
| Scenarios.InitThenGetPayload | tests/blockchain/test_blockchain.py:34-37 | the hash init returns names the genesis payload |
| Scenarios.AppendWithoutInit | tests/blockchain/test_blockchain.py:40-42 | appending with no description is InvalidBlockchain |
| Scenarios.AddWithoutInit | tests/blockchain/test_blockchain.py:40-42 | adding with no description is InvalidBlockchain, whatever the proposed hash |
| Scenarios.GetWithoutInit | tests/blockchain/test_blockchain.py:50-52 | get_payload with no description is InvalidBlockchain |
| Scenarios.GetUnknownHash | tests/blockchain/test_blockchain.py:55-59 | after init, get_payload of a hash no block has is BlockNotFound |
| Scenarios.AppendThenGetPayload | tests/blockchain/test_blockchain.py:62-65 | the hash append returns names the appended payload |
| Scenarios.DescribeWithoutInit | tests/blockchain/test_blockchain.py:68-70 | describe with no description is InvalidBlockchain |
| Scenarios.DescribeAfterInit | tests/blockchain/test_blockchain.py:73-78 | after init, genesis and head are both the hash init returned |
| Scenarios.DescribeAfterAppend | tests/blockchain/test_blockchain.py:81-87 | after append, the head is the hash append returned and genesis is the hash init returned |
| Scenarios.InitThenAddAgreed | ouroboros/blockchain/__init__.py:178-190 | after init, add with the hash of the block it would build is accepted and extends the chain as append would |
| Scenarios.InitThenAddRefused | ouroboros/blockchain/__init__.py:178-190 | after init, add with any other hash is refused with HashDoNotMatch and the one-block chain stays valid |
| Scenarios.AddThenList | ouroboros/blockchain/__init__.py:178-190 | add with the agreed hash lists exactly the new block; with any other hash the list stays empty |
| Scenarios.AddAsAppend | ouroboros/blockchain/__init__.py:168-190 | on two copies of any directory, add with the hash append returned leaves the same files and result; add with another hash is refused and writes nothing; an append error is also add's error |

## Left out

- The command-line interface (`ouroboros/cli.py`) is not part of this
  model. It only calls these operations and prints their results.
- SHA-384 itself is a foreign library. The digest is a `Hasher` parameter
  that maps the message to its raw bytes, and nothing is assumed about it.
  In particular it is not assumed to be injective. Its 48-byte size is
  assumed only where a proof needs it (`HasDigestSize`, in `Sha3Length`
  and `GetUnknownHash`).
- The type dispatch in `encode`/`decode` is left out: bytes pass through
  and only strings are converted. The model's `Encode` and `Decode` are
  typed, so that case cannot arise.
- `os.sync()` and the file-handle mechanics are left out: opening,
  truncating, the order of the two writes, `contextlib`, path building.
  The directory is one optional description value plus a map from hash to
  block bytes.
- Writes that fail halfway, and concurrent writers racing on
  `blockchain.desc`, are not modelled. The model is sequential and every
  write succeeds.
- The default genesis payload `str(time.time())` reads the clock. The
  genesis payload is always an explicit parameter instead.
- Ledger.Root.List: requires `Valid()`. On a corrupted directory the
  source may raise BlockNotFound partway through its walk, or loop
  forever on a cycle of block files. The model covers only directories
  that never initialised or that hold a chain. It also returns the
  listing as a whole sequence, not as a lazy generator.
- Ledger.Root.Append: no lemma covers a directory whose description exists
  but is not a valid chain. In that case only the writes are stated, not
  the shape of the chain.
- Ledger.Root.Add: the same limit as `Append`.
- Scenarios.AppendThenList: requires that the appended block's hash differ
  from the genesis hash, since a collision would stop `list` at once.
  Scenarios.AddThenList has the same requirement.
- Scenarios.GetUnknownHash: requires a 48-byte digest, so that the
  two-character hash '42' cannot be a block's hash.
- The repository's scenarios call `add(dir, payload)` and `descr(dir)`,
  which the current code no longer has (tests/blockchain/test_blockchain.py:27,
  :64, :70, :75). They are replayed here with `append` and `describe`.
  `add` gets scenarios of its own with a proposed hash.
- `tests/test_blockchain_bytes.py` only checks that `sha3` returns
  non-empty text. `Sha3Length` states this, under the digest-size
  assumption.
