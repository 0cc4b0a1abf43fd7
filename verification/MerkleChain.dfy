/** The hash chain of noema/audit/merkle.py: appending, verification, memoised levels, inclusion proofs,
and export and import. */
module MerkleChain {
  import opened Bytes
  import opened AuditBlocks
  import opened PromotionTree

  // ---------- the root binds the history ----------

  lemma {:induction false} EncodingIsLong(h: Hash, b: Block)
    requires WellSized(h, b)
    ensures |Preimage(b)| > 64 && h(Preimage(b)) == b.blockHash
  {
  }

  /** The leaves of a built chain's tree are the digests of its encodings, which are longer than an inner node's. */
  lemma {:induction false} BuiltIsLong(h: Hash, g: Bytes, blocks: seq<Block>)
    requires Built(h, g, blocks)
    ensures AllLong(Encodings(blocks)) && Hashes(blocks) == Digests(h, Encodings(blocks))
  {
    forall i | 0 <= i < |blocks| ensures |Preimage(blocks[i])| > 64 && h(Preimage(blocks[i])) == blocks[i].blockHash {
      BuiltIsWellSized(h, g, blocks, i);
      EncodingIsLong(h, blocks[i]);
    }
  }

  lemma {:induction false} SameEncoding(h: Hash, b: Block, c: Block)
    requires WellSized(h, b) && WellSized(h, c) && Preimage(b) == Preimage(c)
    ensures SameContent(b, c)
  {
    EncodingIsLong(h, b);
    EncodingIsLong(h, c);
    BlockHashBinds(h, b, c);
  }

  lemma {:induction false} SameEncodings(h: Hash, g: Bytes, a: seq<Block>, g': Bytes, b: seq<Block>)
    requires Built(h, g, a) && Built(h, g', b) && Encodings(a) == Encodings(b)
    ensures SameHistory(a, b)
  {
    assert |a| == |Encodings(a)| == |b|;
    forall i | 0 <= i < |a| ensures SameContent(a[i], b[i]) {
      BuiltIsWellSized(h, g, a, i);
      BuiltIsWellSized(h, g', b, i);
      assert Encodings(a)[i] == Encodings(b)[i];
      SameEncoding(h, a[i], b[i]);
    }
  }

  /** The Merkle root alone, without the height, binds a built chain: equal roots force equal heights and equal content
  in every block, unless two strings hashed for the two roots, block encodings among them, collide. */
  lemma {:induction false} RootBindsHistory(h: Hash, g: Bytes, a: seq<Block>, g': Bytes, b: seq<Block>) returns (x: Bytes, y: Bytes)
    requires Built(h, g, a) && Built(h, g', b)
    requires MerkleRoot(h, Hashes(a)) == MerkleRoot(h, Hashes(b))
    ensures SameHistory(a, b) || RootsCollide(h, Encodings(a), Encodings(b), x, y)
  {
    BuiltIsLong(h, g, a);
    BuiltIsLong(h, g', b);
    x, y := RootBindsTexts(h, Encodings(a), Encodings(b));
    if !RootsCollide(h, Encodings(a), Encodings(b), x, y) {
      SameEncodings(h, g, a, g', b);
    }
  }

  /** A block and siblings as the chain would prove them: the content of the block at its own index, and that block's
  siblings. */
  ghost predicate IsGenerated(h: Hash, blocks: seq<Block>, b: Block, siblings: seq<(Bytes, bool)>) {
    0 <= b.index < |blocks| && SameContent(blocks[b.index], b) && siblings == Siblings(h, Hashes(blocks), b.index)
  }

  lemma {:induction false} GeneratedIsAccepted(h: Hash, g: Bytes, blocks: seq<Block>, b: Block, siblings: seq<(Bytes, bool)>)
    requires Built(h, g, blocks) && IsGenerated(h, blocks, b, siblings)
    ensures WellSized(h, b) && AreDigests(siblings) && Climb(h, b.blockHash, siblings) == MerkleRoot(h, Hashes(blocks))
  {
    BuiltIsWellSized(h, g, blocks, b.index);
    BuiltIsLong(h, g, blocks);
    SiblingsAreDigests(h, Hashes(blocks), b.index);
    SiblingsClimbToRoot(h, Hashes(blocks), b.index);
  }

  /** Inclusion proofs against the root of a built chain: a block and siblings are as the chain would prove them if and
  only if the block is well-sized, the siblings are digests and they climb to the root, unless a string hashed to check
  the proof collides with one hashed for the root. */
  lemma {:induction false} AcceptedIffGenerated(h: Hash, g: Bytes, blocks: seq<Block>, b: Block, siblings: seq<(Bytes, bool)>)
    returns (x: Bytes, y: Bytes)
    requires Built(h, g, blocks)
    ensures var accepted := WellSized(h, b) && AreDigests(siblings) && Climb(h, b.blockHash, siblings) == MerkleRoot(h, Hashes(blocks));
            && (IsGenerated(h, blocks, b, siblings) ==> accepted)
            && (accepted ==>
                  IsGenerated(h, blocks, b, siblings) || ProofOfTextCollides(h, Encodings(blocks), Preimage(b), siblings, x, y))
  {
    x, y := [], [];
    if IsGenerated(h, blocks, b, siblings) {
      GeneratedIsAccepted(h, g, blocks, b, siblings);
    } else if WellSized(h, b) && AreDigests(siblings) && Climb(h, b.blockHash, siblings) == MerkleRoot(h, Hashes(blocks)) {
      x, y := AcceptedBlockIsInChain(h, g, blocks, b, siblings);
    }
  }

  lemma {:induction false} AcceptedBlockIsInChain(h: Hash, g: Bytes, blocks: seq<Block>, b: Block, siblings: seq<(Bytes, bool)>)
    returns (x: Bytes, y: Bytes)
    requires Built(h, g, blocks) && WellSized(h, b) && AreDigests(siblings)
    requires Climb(h, b.blockHash, siblings) == MerkleRoot(h, Hashes(blocks))
    ensures IsGenerated(h, blocks, b, siblings) || ProofOfTextCollides(h, Encodings(blocks), Preimage(b), siblings, x, y)
  {
    var i;
    BuiltIsLong(h, g, blocks);
    EncodingIsLong(h, b);
    i, x, y := AcceptedProofIsGenerated(h, Encodings(blocks), Preimage(b), siblings);
    if !ProofOfTextCollides(h, Encodings(blocks), Preimage(b), siblings, x, y) {
      BuiltIsWellSized(h, g, blocks, i);
      SameEncoding(h, blocks[i], b);
    }
  }

  /** Why the siblings must be digests: `MerkleProof.verify` hashes siblings of any length, so the end of any
  block's encoding climbs to the root as if it were a leaf. */
  lemma {:induction false} EncodingSuffixReachesRoot(h: Hash, g: Bytes, blocks: seq<Block>, i: nat, front: Bytes, end: Bytes)
    requires Built(h, g, blocks) && i < |blocks|
    requires Preimage(blocks[i]) == front + end
    ensures Climb(h, end, [(front, true)] + Siblings(h, Hashes(blocks), i)) == MerkleRoot(h, Hashes(blocks))
  {
    var siblings := Siblings(h, Hashes(blocks), i);
    assert ([(front, true)] + siblings)[1..] == siblings;
    SiblingsClimbToRoot(h, Hashes(blocks), i);
    BuiltIsWellSized(h, g, blocks, i);
    EncodingIsLong(h, blocks[i]);
  }

  /** For chains that merely pass `verify_chain`, imports included, root and height together bind the
  list of block hashes. */
  lemma {:induction false} VerifiedRootBindsHashes(h: Hash, a: seq<Block>, b: seq<Block>) returns (x: Bytes, y: Bytes)
    requires Verified(h, a) && Verified(h, b) && |a| == |b| > 0
    requires MerkleRoot(h, Hashes(a)) == MerkleRoot(h, Hashes(b))
    ensures Hashes(a) == Hashes(b) || LevelsCollide(h, Hashes(a), Hashes(b), x, y)
  {
    forall i | 0 <= i < |a| ensures |Hashes(a)[i]| == |Hashes(b)[i]| == 32 {
      assert VerifyBlock(h, a[i]) == Some(true) && VerifyBlock(h, b[i]) == Some(true);
    }
    x, y := RootAndHeightBindHashes(h, Hashes(a), Hashes(b));
  }

  // ---------- export and import ----------

  datatype Meta = Text(text: string) | Raw(raw: Bytes)
  datatype Exported = Exported(
    index: int, prevHash: string, timestamp: real, commitment: string, blockHash: string, metadata: Meta)

  /** `str.encode("utf-8")` and `bytes.decode("utf-8", errors="replace")`. */
  datatype Utf8 = Utf8(encode: string -> Bytes, decode: Bytes -> string)

  /** Valid text: decoding replaces nothing. */
  ghost predicate IsText(u: Utf8, b: Bytes) {
    u.encode(u.decode(b)) == b
  }

  function ExportBlock(u: Utf8, b: Block): Exported {
    Exported(b.index, Hex(b.prevHash), b.timestamp, Hex(b.commitment), Hex(b.blockHash), Text(u.decode(b.metadata)))
  }

  function ExportBlocks(u: Utf8, blocks: seq<Block>): (r: seq<Exported>)
    ensures |r| == |blocks|
  {
    seq(|blocks|, i requires 0 <= i < |blocks| => ExportBlock(u, blocks[i]))
  }

  /** One imported block; `None` stands for the ValueError of `bytes.fromhex`. */
  function ParseBlock(u: Utf8, e: Exported, nonce: Bytes): Option<Block> {
    var p, c, d := FromHex(e.prevHash), FromHex(e.commitment), FromHex(e.blockHash);
    if p.Some? && c.Some? && d.Some?
    then Some(Block(e.index, p.value, e.timestamp, c.value,
                    if e.metadata.Text? then u.encode(e.metadata.text) else e.metadata.raw, d.value, nonce))
    else None
  }

  /** Which field of a record gives which field of a block; a record is malformed exactly when a hexadecimal field is. */
  lemma {:induction false} ParseBlockIs(u: Utf8, e: Exported, nonce: Bytes)
    ensures var r := ParseBlock(u, e, nonce);
            && (r == None <==> FromHex(e.prevHash) == None || FromHex(e.commitment) == None || FromHex(e.blockHash) == None)
            && (r.Some? ==> var b := r.value;
                  && b.index == e.index && b.timestamp == e.timestamp && b.nonce == nonce
                  && FromHex(e.prevHash) == Some(b.prevHash) && FromHex(e.commitment) == Some(b.commitment)
                  && FromHex(e.blockHash) == Some(b.blockHash)
                  && (e.metadata.Text? ==> b.metadata == u.encode(e.metadata.text))
                  && (e.metadata.Raw? ==> b.metadata == e.metadata.raw))
  {
  }

  ghost predicate SameButNonce(b: Block, c: Block) {
    b == c.(nonce := b.nonce)
  }

  /** A block as its export spells it: metadata goes through text. */
  function Reread(u: Utf8, b: Block): Block {
    b.(metadata := u.encode(u.decode(b.metadata)))
  }

  function RereadAll(u: Utf8, blocks: seq<Block>): (r: seq<Block>)
    ensures |r| == |blocks|
  {
    seq(|blocks|, i requires 0 <= i < |blocks| => Reread(u, blocks[i]))
  }

  /** A block survives export and import apart from its nonce exactly when its metadata is text. */
  lemma {:induction false} BlockRoundTrip(u: Utf8, b: Block, nonce: Bytes)
    ensures ParseBlock(u, ExportBlock(u, b), nonce) == Some(Reread(u, b).(nonce := nonce))
    ensures ParseBlock(u, ExportBlock(u, b), nonce) == Some(b.(nonce := nonce)) <==> IsText(u, b.metadata)
  {
    HexRoundTrip(b.prevHash);
    HexRoundTrip(b.commitment);
    HexRoundTrip(b.blockHash);
  }

  /** The blocks that `import_blocks` reads from the first `n` records: those with index 0 are
  skipped, and one malformed record makes the whole import fail. */
  function Parsed(u: Utf8, data: seq<Exported>, nonces: nat -> Bytes, n: nat): Option<seq<Block>>
    requires n <= |data|
  {
    if n == 0 then Some([])
    else
      var before := Parsed(u, data, nonces, n - 1);
      if before == None || data[n - 1].index == 0 then before
      else
        var block := ParseBlock(u, data[n - 1], nonces(n - 1));
        if block == None then None else Some(before.value + [block.value])
  }

  lemma {:induction false} ParsedNext(u: Utf8, data: seq<Exported>, nonces: nat -> Bytes, n: nat)
    requires n < |data| && Parsed(u, data, nonces, n).Some?
    ensures var block := ParseBlock(u, data[n], nonces(n));
            var before := Parsed(u, data, nonces, n);
            Parsed(u, data, nonces, n + 1) ==
            if data[n].index == 0 then before else if block == None then None else Some(before.value + [block.value])
  {
  }

  ghost predicate Mirrors(parsed: seq<Block>, blocks: seq<Block>, n: nat) {
    1 <= n <= |blocks| && |parsed| == n - 1 && forall i :: 1 <= i < n ==> SameButNonce(parsed[i - 1], blocks[i])
  }

  lemma {:induction false} ParsedExport(u: Utf8, blocks: seq<Block>, nonces: nat -> Bytes, n: nat)
    requires 1 <= n <= |blocks|
    requires forall i :: 0 <= i < |blocks| ==> blocks[i].index == i
    ensures var r := Parsed(u, ExportBlocks(u, blocks), nonces, n); r.Some? && Mirrors(r.value, RereadAll(u, blocks), n)
  {
    if n == 1 {
      assert Parsed(u, ExportBlocks(u, blocks), nonces, 0) == Some([]);
    } else {
      ParsedExport(u, blocks, nonces, n - 1);
      BlockRoundTrip(u, blocks[n - 1], nonces(n - 1));
      ghost var before := Parsed(u, ExportBlocks(u, blocks), nonces, n - 1).value;
      ghost var block := Reread(u, blocks[n - 1]).(nonce := nonces(n - 1));
      assert Parsed(u, ExportBlocks(u, blocks), nonces, n) == Some(before + [block]);
      MirrorsExtend(before, RereadAll(u, blocks), n, block);
    }
  }

  lemma {:induction false} MirrorsExtend(parsed: seq<Block>, blocks: seq<Block>, n: nat, block: Block)
    requires 1 < n <= |blocks| && Mirrors(parsed, blocks, n - 1) && SameButNonce(block, blocks[n - 1])
    ensures Mirrors(parsed + [block], blocks, n)
  {
  }

  lemma {:induction false} NoncesDoNotMatter(h: Hash, g: Bytes, blocks: seq<Block>, again: seq<Block>)
    requires Built(h, g, blocks) && |again| == |blocks|
    requires forall i :: 0 <= i < |blocks| ==> SameButNonce(again[i], blocks[i])
    ensures Built(h, g, again) && Hashes(again) == Hashes(blocks)
  {
    forall i | 0 <= i < |blocks| ensures VerifyBlock(h, again[i]) == Some(true) {
      assert VerifyBlock(h, blocks[i]) == Some(true);
    }
  }

  /** Importing a built chain's export under its own id succeeds and gives back every block apart
  from its unexported nonce, hence the same tip and the same Merkle root. */
  lemma {:induction false} ImportOfExport(h: Hash, g: Bytes, u: Utf8, blocks: seq<Block>, genesisNonce: Bytes, nonces: nat -> Bytes)
    requires Built(h, g, blocks)
    requires forall i :: 1 <= i < |blocks| ==> IsText(u, blocks[i].metadata)
    ensures var r := Parsed(u, ExportBlocks(u, blocks), nonces, |blocks|);
            r.Some? && var again := [GenesisBlock(h, g, genesisNonce)] + r.value;
            && |again| == |blocks| && (forall i :: 0 <= i < |blocks| ==> SameButNonce(again[i], blocks[i]))
            && Built(h, g, again) && Hashes(again) == Hashes(blocks)
  {
    ParsedExport(u, blocks, nonces, |blocks|);
    var parsed := Parsed(u, ExportBlocks(u, blocks), nonces, |blocks|).value;
    var again := [GenesisBlock(h, g, genesisNonce)] + parsed;
    assert forall i :: 1 <= i < |blocks| ==> RereadAll(u, blocks)[i] == blocks[i];
    WithGenesis(h, g, blocks, parsed, genesisNonce);
    NoncesDoNotMatter(h, g, blocks, again);
  }

  /** The converse: when some metadata is not text, the import of the export fails its verification, unless the block's
  encoding collides with that of the block as reread. */
  lemma {:induction false} ImportNeedsText(h: Hash, g: Bytes, u: Utf8, blocks: seq<Block>, genesisNonce: Bytes, nonces: nat -> Bytes, i: nat)
    requires Built(h, g, blocks) && 1 <= i < |blocks| && !IsText(u, blocks[i].metadata)
    ensures var r := Parsed(u, ExportBlocks(u, blocks), nonces, |blocks|);
            r.Some? && (Verified(h, [GenesisBlock(h, g, genesisNonce)] + r.value) ==>
                        Collision(h, Preimage(blocks[i]), Preimage(Reread(u, blocks[i]))))
  {
    ParsedExport(u, blocks, nonces, |blocks|);
    RereadFails(h, u, blocks, Parsed(u, ExportBlocks(u, blocks), nonces, |blocks|).value, GenesisBlock(h, g, genesisNonce), i);
  }

  lemma {:induction false} RereadFails(h: Hash, u: Utf8, blocks: seq<Block>, parsed: seq<Block>, first: Block, i: nat)
    requires Verified(h, blocks) && Mirrors(parsed, RereadAll(u, blocks), |blocks|)
    requires 1 <= i < |blocks| && !IsText(u, blocks[i].metadata)
    ensures Verified(h, [first] + parsed) ==> Collision(h, Preimage(blocks[i]), Preimage(Reread(u, blocks[i])))
  {
    var again := [first] + parsed;
    MirroredAt(u, parsed, blocks, i);
    if Verified(h, again) {
      VerifiedAt(h, blocks, i);
      VerifiedAt(h, again, i);
      MetadataIsBound(h, blocks[i], parsed[i - 1], Reread(u, blocks[i]));
    }
  }

  lemma {:induction false} MirroredAt(u: Utf8, parsed: seq<Block>, blocks: seq<Block>, i: nat)
    requires Mirrors(parsed, RereadAll(u, blocks), |blocks|) && 1 <= i < |blocks|
    ensures |parsed| == |blocks| - 1 && SameButNonce(parsed[i - 1], Reread(u, blocks[i]))
  {
    assert RereadAll(u, blocks)[i] == Reread(u, blocks[i]);
  }

  lemma {:induction false} VerifiedAt(h: Hash, blocks: seq<Block>, i: nat)
    requires Verified(h, blocks) && i < |blocks|
    ensures VerifyBlock(h, blocks[i]) == Some(true)
  {
  }

  /** A verified block, and one that differs in its metadata and verifies under any nonce, have colliding encodings. */
  lemma {:induction false} MetadataIsBound(h: Hash, b: Block, c: Block, d: Block)
    requires VerifyBlock(h, b) == VerifyBlock(h, c) == Some(true) && SameButNonce(c, d)
    requires d == b.(metadata := d.metadata) && b.metadata != d.metadata
    ensures Collision(h, Preimage(b), Preimage(d))
  {
    var front := BigEndian(b.index, 8) + b.prevHash + b.commitment + BigEndian(Micros(b.timestamp), 8);
    if front + b.metadata == front + d.metadata {
      SameParts(front, b.metadata, front, d.metadata);
    }
  }

  lemma {:induction false} WithGenesis(h: Hash, g: Bytes, blocks: seq<Block>, parsed: seq<Block>, genesisNonce: Bytes)
    requires Built(h, g, blocks) && Mirrors(parsed, blocks, |blocks|)
    ensures var again := [GenesisBlock(h, g, genesisNonce)] + parsed;
            |again| == |blocks| && forall i :: 0 <= i < |blocks| ==> SameButNonce(again[i], blocks[i])
  {
    var again := [GenesisBlock(h, g, genesisNonce)] + parsed;
    forall i | 0 <= i < |blocks| ensures SameButNonce(again[i], blocks[i]) {
      if i > 0 {
        assert again[i] == parsed[i - 1];
      }
    }
  }

  /** Checking a chain fails with an overflow at a block: everything before it is in order. */
  ghost predicate FailsAt(h: Hash, blocks: seq<Block>, i: nat) {
    i < |blocks| && Verified(h, blocks[..i]) && VerifyBlock(h, blocks[i]) == None
  }

  ghost predicate Overflows(h: Hash, blocks: seq<Block>) {
    exists i: nat :: FailsAt(h, blocks, i)
  }

  /** The first block that is not in order decides. */
  lemma {:induction false} FirstFailure(h: Hash, blocks: seq<Block>, i: nat)
    requires i < |blocks| && Verified(h, blocks[..i]) && !Verified(h, blocks[..i + 1])
    ensures !Verified(h, blocks) && (Overflows(h, blocks) <==> VerifyBlock(h, blocks[i]) == None)
  {
    if Verified(h, blocks) {
      VerifiedPrefix(h, blocks, |blocks|, i + 1);
    }
    if VerifyBlock(h, blocks[i]) == None {
      assert FailsAt(h, blocks, i);
    }
    if Overflows(h, blocks) {
      var j: nat :| FailsAt(h, blocks, j);
      if j < i {
        VerifiedAt(h, blocks[..i], j);
      } else if i < j {
        VerifiedPrefix(h, blocks, j, i + 1);
      }
    }
  }

  lemma {:induction false} VerifiedPrefix(h: Hash, blocks: seq<Block>, n: nat, m: nat)
    requires m <= n <= |blocks| && Verified(h, blocks[..n])
    ensures Verified(h, blocks[..m])
  {
    forall i | 0 <= i < m ensures VerifyBlock(h, blocks[..m][i]) == Some(true) {
      VerifiedAt(h, blocks[..n], i);
    }
    forall i | 0 < i < m ensures blocks[..m][i].prevHash == blocks[..m][i - 1].blockHash {
      assert blocks[..n][i].prevHash == blocks[..n][i - 1].blockHash;
    }
  }

  /** The next block is in order exactly when it verifies and links to the one before. */
  lemma {:induction false} VerifiedNext(h: Hash, blocks: seq<Block>, i: nat)
    requires i < |blocks| && Verified(h, blocks[..i])
    ensures Verified(h, blocks[..i + 1]) <==>
            VerifyBlock(h, blocks[i]) == Some(true) && (i > 0 ==> blocks[i].prevHash == blocks[i - 1].blockHash)
  {
    var next := blocks[..i + 1];
    if Verified(h, next) {
      VerifiedAt(h, next, i);
      assert i > 0 ==> next[i].prevHash == next[i - 1].blockHash;
    } else if VerifyBlock(h, blocks[i]) == Some(true) && (i > 0 ==> blocks[i].prevHash == blocks[i - 1].blockHash) {
      forall k | 0 <= k < |next| ensures VerifyBlock(h, next[k]) == Some(true) {
        if k < i {
          VerifiedAt(h, blocks[..i], k);
        }
      }
      forall k | 0 < k < |next| ensures next[k].prevHash == next[k - 1].blockHash {
        assert k < i ==> blocks[..i][k].prevHash == blocks[..i][k - 1].blockHash;
      }
    }
  }

  lemma {:induction false} NoOverflow(h: Hash, blocks: seq<Block>)
    requires Verified(h, blocks)
    ensures !Overflows(h, blocks)
  {
    forall j: nat | j < |blocks| ensures !FailsAt(h, blocks, j) {
      VerifiedAt(h, blocks, j);
    }
  }

  // ---------- the chain ----------

  /** A block that may follow another: the next index, its link, a digest as commitment, and its own hash. */
  ghost predicate Extends(h: Hash, tip: Block, b: Block) {
    b.index == tip.index + 1 && b.prevHash == tip.blockHash && |b.commitment| == 32 && VerifyBlock(h, b) == Some(true)
  }

  lemma {:induction false} ExtendedChain(h: Hash, g: Bytes, blocks: seq<Block>, b: Block)
    requires blocks != [] && Extends(h, blocks[|blocks| - 1], b)
    ensures Verified(h, blocks) ==> Verified(h, blocks + [b])
    ensures Built(h, g, blocks) ==> Built(h, g, blocks + [b])
  {
    if Verified(h, blocks) {
      ExtendedIsVerified(h, blocks, b);
    }
  }

  lemma {:induction false} ExtendedIsVerified(h: Hash, blocks: seq<Block>, b: Block)
    requires blocks != [] && Extends(h, blocks[|blocks| - 1], b) && Verified(h, blocks)
    ensures Verified(h, blocks + [b])
  {
  }

  datatype AppendResult = Appended(block: Block) | Overflow | SelfCheckFailed
  datatype ImportResult = Imported(chain: MerkleChainAudit) | BadHex | ImportOverflow | VerificationFailed

  class MerkleChainAudit {
    const h: Hash
    const genesisPayload: string -> Bytes  // canonical JSON of the chain_created event
    const chainId: string
    var blocks: seq<Block>
    var treeLevels: Option<seq<seq<Bytes>>>

    /** The memo, when present, is what a fresh build would give. */
    ghost predicate MemoValid()
      reads this
    {
      blocks != [] && (treeLevels.Some? ==> treeLevels.value == Levels(h, Hashes(blocks)))
    }

    ghost predicate Valid()
      reads this
    {
      MemoValid() && Built(h, genesisPayload(chainId), blocks)
    }

    constructor (h: Hash, genesisPayload: string -> Bytes, id: string, freshId: string, nonce: Bytes)
      ensures Valid() && this.h == h && this.genesisPayload == genesisPayload
      ensures chainId == (if id == "" then freshId else id) && treeLevels == None
      ensures blocks == [GenesisBlock(h, genesisPayload(chainId), nonce)]
    {
      var chosen := if id == "" then freshId else id;
      this.h := h;
      this.genesisPayload := genesisPayload;
      chainId := chosen;
      treeLevels := None;
      blocks := [GenesisBlock(h, genesisPayload(chosen), nonce)];
    }

    /** `append`, on any chain, built or imported: the new block carries the next index after the tip's, links to
    the tip and verifies, so that a verified chain stays verified and a built one stays built. */
    method Append(payload: Bytes, metadata: Bytes, now: real, nonce: Bytes) returns (r: AppendResult)
      requires MemoValid()
      modifies this
      ensures MemoValid()
      ensures r.Appended? <==> FitsEightBytes(old(blocks[|blocks| - 1]).index + 1) && FitsEightBytes(Micros(now))
      ensures r.Appended? ==> blocks == old(blocks) + [r.block] && Extends(h, old(blocks[|blocks| - 1]), r.block)
      ensures r.Appended? ==> r.block.commitment == h(payload) && r.block.metadata == metadata && r.block.timestamp == now && r.block.nonce == nonce
      ensures !r.Appended? ==> r == Overflow && blocks == old(blocks) && treeLevels == old(treeLevels)
      ensures old(Verified(h, blocks)) ==> Verified(h, blocks)
      ensures old(Valid()) ==> Valid()
    {
      var prev := blocks[|blocks| - 1];
      var index := prev.index + 1;
      var commitment := h(payload);
      var blockHash := ComputeBlockHash(h, index, prev.blockHash, commitment, now, metadata);
      if blockHash == None {
        return Overflow;
      }
      var block := Block(index, prev.blockHash, now, commitment, metadata, blockHash.value, nonce);
      if VerifyBlock(h, block) != Some(true) {
        return SelfCheckFailed;
      }
      ExtendedChain(h, genesisPayload(chainId), blocks, block);
      blocks := blocks + [block];
      treeLevels := None;
      return Appended(block);
    }

    /** `verify_chain`; `None` stands for an OverflowError while recomputing a block hash. */
    method VerifyChain() returns (r: Option<bool>)
      ensures r == Some(true) <==> Verified(h, blocks)
      ensures r == None <==> Overflows(h, blocks)
    {
      for i := 0 to |blocks|
        invariant Verified(h, blocks[..i])
      {
        VerifiedNext(h, blocks, i);
        var verdict := VerifyBlock(h, blocks[i]);
        if verdict != Some(true) {
          FirstFailure(h, blocks, i);
          return verdict;
        }
        if i > 0 && blocks[i].prevHash != blocks[i - 1].blockHash {
          FirstFailure(h, blocks, i);
          return Some(false);
        }
      }
      assert blocks[..|blocks|] == blocks;
      NoOverflow(h, blocks);
      return Some(true);
    }

    /** `_build_levels`: reuse the memo, or build all levels bottom-up and remember them. */
    method BuildLevels() returns (levels: seq<seq<Bytes>>)
      requires MemoValid()
      modifies this`treeLevels
      ensures MemoValid() && treeLevels == Some(levels) && levels == Levels(h, Hashes(blocks))
    {
      if treeLevels.Some? {
        return treeLevels.value;
      }
      levels := [Hashes(blocks)];
      while |levels[|levels| - 1]| > 1
        invariant |levels| > 0
        invariant levels[..|levels| - 1] + Levels(h, levels[|levels| - 1]) == Levels(h, Hashes(blocks))
        decreases |levels[|levels| - 1]|
      {
        var level := levels[|levels| - 1];
        var next := BuildParents(h, level);
        ghost var below := levels[..|levels| - 1];
        assert levels == below + [level];
        assert below + ([level] + Levels(h, next)) == (below + [level]) + Levels(h, next);
        levels := levels + [next];
        assert levels[..|levels| - 1] == below + [level];
      }
      assert levels == levels[..|levels| - 1] + [levels[|levels| - 1]];
      treeLevels := Some(levels);
    }

    method GetRoot() returns (root: Bytes)
      requires MemoValid()
      modifies this`treeLevels
      ensures MemoValid() && root == MerkleRoot(h, Hashes(blocks))
    {
      var levels := BuildLevels();
      TopOfLevels(h, Hashes(blocks));
      return levels[|levels| - 1][0];
    }

    method ProveInclusion(blockIndex: int) returns (r: Option<MerkleProof>)
      requires MemoValid()
      modifies this`treeLevels
      ensures MemoValid()
      ensures r == if 0 <= blockIndex < |blocks|
        then Some(MerkleProof(blockIndex, blocks[blockIndex].blockHash, Siblings(h, Hashes(blocks), blockIndex)))
        else None
    {
      if blockIndex < 0 || blockIndex >= |blocks| {
        return None;
      }
      var block := blocks[blockIndex];
      var levels := BuildLevels();
      if |levels[0]| == 1 {
        return Some(MerkleProof(blockIndex, block.blockHash, []));
      }
      var siblings: seq<(Bytes, bool)> := [];
      var idx: nat := blockIndex;
      ghost var goal := Siblings(h, Hashes(blocks), blockIndex);
      for k := 0 to |levels| - 1
        invariant MemoValid() && idx < |levels[k]| && levels[k..] == Levels(h, levels[k])
        invariant siblings + Siblings(h, levels[k], idx) == goal
      {
        var level := levels[k];
        NextLevel(h, levels, k);
        ghost var before, rest := siblings, Siblings(h, Parents(h, level), idx / 2);
        assert before + (SiblingOf(level, idx) + rest) == (before + SiblingOf(level, idx)) + rest;
        if idx % 2 == 0 {
          if idx + 1 < |level| {
            siblings := siblings + [(level[idx + 1], false)];
          }
        } else {
          siblings := siblings + [(level[idx - 1], true)];
        }
        assert siblings == before + SiblingOf(level, idx);
        idx := idx / 2;
      }
      assert siblings == goal;
      return Some(MerkleProof(blockIndex, block.blockHash, siblings));
    }

    /** `verify_proof`; a negative index counts from the end, and `None` stands for the IndexError. */
    method VerifyProof(proof: MerkleProof) returns (r: Option<bool>)
      requires MemoValid()
      modifies this`treeLevels
      ensures MemoValid()
      ensures var i := if proof.blockIndex < 0 then |blocks| + proof.blockIndex else proof.blockIndex;
        r == if proof.blockIndex >= |blocks| then Some(false)
             else if i < 0 then None
             else Some(blocks[i].blockHash == proof.blockHash
                       && Climb(h, blocks[i].blockHash, proof.siblings) == MerkleRoot(h, Hashes(blocks)))
    {
      if proof.blockIndex >= |blocks| {
        return Some(false);
      }
      var i := if proof.blockIndex < 0 then |blocks| + proof.blockIndex else proof.blockIndex;
      if i < 0 {
        return None;
      }
      var leaf := blocks[i].blockHash;
      if leaf != proof.blockHash {
        return Some(false);
      }
      var root := GetRoot();
      var current := leaf;
      for k := 0 to |proof.siblings|
        invariant Climb(h, current, proof.siblings[k..]) == Climb(h, leaf, proof.siblings)
      {
        assert proof.siblings[k..][1..] == proof.siblings[k + 1..];
        current := ClimbStep(h, current, proof.siblings[k]);
      }
      assert proof.siblings[|proof.siblings|..] == [];
      return Some(current == root);
    }

    /** The record loop of `import_blocks`; false stands for the ValueError of `bytes.fromhex`. */
    method LoadBlocks(u: Utf8, data: seq<Exported>, nonces: nat -> Bytes) returns (ok: bool)
      modifies this`blocks
      ensures ok <==> Parsed(u, data, nonces, |data|).Some?
      ensures ok ==> blocks == old(blocks) + Parsed(u, data, nonces, |data|).value
    {
      var parsed := ParseRecords(u, data, nonces);
      if parsed == None {
        return false;
      }
      blocks := blocks + parsed.value;
      return true;
    }

    static method ParseRecords(u: Utf8, data: seq<Exported>, nonces: nat -> Bytes) returns (r: Option<seq<Block>>)
      ensures r == Parsed(u, data, nonces, |data|)
    {
      var parsed: seq<Block> := [];
      for i := 0 to |data|
        invariant Parsed(u, data, nonces, i) == Some(parsed)
      {
        ParsedNext(u, data, nonces, i);
        if data[i].index != 0 {
          var block := ParseBlock(u, data[i], nonces(i));
          if block == None {
            ParseFailureStays(u, data, nonces, i + 1, |data|);
            return None;
          }
          parsed := parsed + [block.value];
        }
      }
      return Some(parsed);
    }

    /** Every proof the chain hands out is one it accepts, whatever was memoised before. */
    method ProveThenVerify(blockIndex: int) returns (r: Option<bool>)
      requires MemoValid() && 0 <= blockIndex < |blocks|
      modifies this`treeLevels
      ensures MemoValid() && r == Some(true)
    {
      var proof := ProveInclusion(blockIndex);
      SiblingsClimbToRoot(h, Hashes(blocks), blockIndex);
      r := VerifyProof(proof.value);
    }
  }

  /** `import_blocks`: parse every record except those with index 0, then verify the whole chain. */
  method ImportBlocks(h: Hash, genesisPayload: string -> Bytes, u: Utf8, id: string, freshId: string,
                      data: seq<Exported>, genesisNonce: Bytes, nonces: nat -> Bytes)
    returns (r: ImportResult)
    ensures var chainId := if id == "" then freshId else id;
            var parsed := Parsed(u, data, nonces, |data|);
            var genesis := GenesisBlock(h, genesisPayload(chainId), genesisNonce);
            && (r.BadHex? <==> parsed == None)
            && (r.Imported? <==> parsed.Some? && Verified(h, [genesis] + parsed.value))
            && (r.ImportOverflow? <==> parsed.Some? && Overflows(h, [genesis] + parsed.value))
            && (r.Imported? ==> fresh(r.chain) && r.chain.h == h && r.chain.chainId == chainId && r.chain.genesisPayload == genesisPayload
                                && r.chain.MemoValid() && r.chain.blocks == [genesis] + parsed.value)
  {
    var chain := new MerkleChainAudit(h, genesisPayload, id, freshId, genesisNonce);
    var ok := chain.LoadBlocks(u, data, nonces);
    if !ok {
      return BadHex;
    }
    var verdict := chain.VerifyChain();
    if verdict == None {
      return ImportOverflow;
    }
    if verdict != Some(true) {
      return VerificationFailed;
    }
    return Imported(chain);
  }

  lemma {:induction false} ParseFailureStays(u: Utf8, data: seq<Exported>, nonces: nat -> Bytes, m: nat, n: nat)
    requires m <= n <= |data| && Parsed(u, data, nonces, m) == None
    ensures Parsed(u, data, nonces, n) == None
  {
    if m < n {
      ParseFailureStays(u, data, nonces, m, n - 1);
    }
  }
}
