/** The blocks of noema/audit/merkle.py: their fixed-width encoding, what `verify_chain` checks, and how
the tip hash binds a chain's whole history. */
module AuditBlocks {
  import opened Bytes

  // ---------- blocks ----------

  datatype Block = Block(
    index: int, prevHash: Bytes, timestamp: real, commitment: Bytes, metadata: Bytes, blockHash: Bytes, nonce: Bytes)

  /** `int(timestamp * 1_000_000)`: Python truncates toward zero. */
  function Micros(t: real): int {
    if t >= 0.0 then (t * 1000000.0).Floor else -(-t * 1000000.0).Floor
  }

  predicate FitsEightBytes(n: int) {
    0 <= n < Pow256(8)
  }

  function Encode(index: nat, prevHash: Bytes, commitment: Bytes, micros: nat, metadata: Bytes): Bytes
    requires FitsEightBytes(index) && FitsEightBytes(micros)
  {
    BigEndian(index, 8) + prevHash + commitment + BigEndian(micros, 8) + metadata
  }

  /** `_compute_block_hash`; `None` stands for the OverflowError of `to_bytes`. */
  function ComputeBlockHash(h: Hash, index: int, prevHash: Bytes, commitment: Bytes, t: real, metadata: Bytes)
    : Option<Digest>
  {
    if FitsEightBytes(index) && FitsEightBytes(Micros(t))
    then Some(h(Encode(index, prevHash, commitment, Micros(t), metadata)))
    else None
  }

  /** `AuditBlock.verify`; `None` when recomputing the hash overflows. */
  function VerifyBlock(h: Hash, b: Block): Option<bool> {
    match ComputeBlockHash(h, b.index, b.prevHash, b.commitment, b.timestamp, b.metadata)
    case Some(expected) => Some(expected == b.blockHash)
    case None => None
  }

  function Hashes(blocks: seq<Block>): (r: seq<Bytes>)
    ensures |r| == |blocks|
  {
    seq(|blocks|, i requires 0 <= i < |blocks| => blocks[i].blockHash)
  }

  /** What `verify_chain` checks. */
  ghost predicate Verified(h: Hash, blocks: seq<Block>) {
    && (forall i :: 0 <= i < |blocks| ==> VerifyBlock(h, blocks[i]) == Some(true))
    && (forall i :: 0 < i < |blocks| ==> blocks[i].prevHash == blocks[i - 1].blockHash)
  }

  function GenesisBlock(h: Hash, payload: Bytes, nonce: Bytes): Block {
    var commitment := h(payload);
    var metadata: Bytes := [103, 101, 110, 101, 115, 105, 115];
    Block(0, ZERO32, 0.0, commitment, metadata, h(Encode(0, ZERO32, commitment, 0, metadata)), nonce)
  }

  /** What the constructor and `append` establish: a verified chain from a genesis block whose
  indices are positions and whose commitments are digests. */
  ghost predicate Built(h: Hash, genesisPayload: Bytes, blocks: seq<Block>) {
    && blocks != []
    && blocks[0] == GenesisBlock(h, genesisPayload, blocks[0].nonce)
    && Verified(h, blocks)
    && forall i :: 0 <= i < |blocks| ==> blocks[i].index == i && |blocks[i].commitment| == 32
  }

  // ---------- what is hashed ----------

  /** Whole microseconds, truncated toward zero. */
  lemma {:induction false} MicrosTruncates(t: real)
    ensures t >= 0.0 ==> Micros(t) as real <= t * 1000000.0 < (Micros(t) + 1) as real
    ensures t < 0.0 ==> (Micros(t) - 1) as real < t * 1000000.0 <= Micros(t) as real
  {
    if t < 0.0 {
      var m := (-t * 1000000.0).Floor;
      assert m as real <= -t * 1000000.0 < (m + 1) as real;
    }
  }

  /** A block verifies exactly when its hash is the digest of index, previous hash, commitment, microseconds and
  metadata in that order, the numbers as eight bytes, and checking it fails exactly when a number does not fit. */
  lemma {:induction false} VerifyBlockIff(h: Hash, b: Block)
    ensures var m := Micros(b.timestamp);
            var fits := 0 <= b.index < Pow256(8) && 0 <= m < Pow256(8);
            && (VerifyBlock(h, b) == None <==> !fits)
            && (VerifyBlock(h, b) == Some(true) <==>
                  fits && b.blockHash == h(BigEndian(b.index, 8) + b.prevHash + b.commitment + BigEndian(m, 8) + b.metadata))
  {
  }

  /** The genesis block: index 0, zero bytes before it, time 0, the digest of the payload, and it verifies. */
  lemma {:induction false} GenesisIs(h: Hash, payload: Bytes, nonce: Bytes)
    ensures var b := GenesisBlock(h, payload, nonce);
            && b.index == 0 && b.timestamp == 0.0 && b.commitment == h(payload) && b.nonce == nonce
            && |b.prevHash| == 32 && (forall i :: 0 <= i < 32 ==> b.prevHash[i] as int == 0)
            && |b.metadata| == 7 && (forall i :: 0 <= i < 7 ==> b.metadata[i] as int == "genesis"[i] as int)
            && VerifyBlock(h, b) == Some(true)
  {
    var b := GenesisBlock(h, payload, nonce);
    assert Micros(b.timestamp) == 0;
  }

  // ---------- the tip hash binds the history ----------

  lemma {:induction false} EncodeInjective(
    i: nat, p: Bytes, c: Bytes, t: nat, m: Bytes, i': nat, p': Bytes, c': Bytes, t': nat, m': Bytes)
    requires FitsEightBytes(i) && FitsEightBytes(t) && FitsEightBytes(i') && FitsEightBytes(t')
    requires |p| == |p'| == |c| == |c'| == 32
    requires Encode(i, p, c, t, m) == Encode(i', p', c', t', m')
    ensures (i, p, c, t, m) == (i', p', c', t', m')
  {
    var I, I', T, T' := BigEndian(i, 8), BigEndian(i', 8), BigEndian(t, 8), BigEndian(t', 8);
    SameParts(I + p + c + T, m, I' + p' + c' + T', m');
    SameParts(I + p + c, T, I' + p' + c', T');
    SameParts(I + p, c, I' + p', c');
    SameParts(I, p, I', p');
    BigEndianInjective(i, i', 8);
    BigEndianInjective(t, t', 8);
  }

  lemma {:induction false} SameParts(a: Bytes, b: Bytes, a': Bytes, b': Bytes)
    requires |a| == |a'| && a + b == a' + b'
    ensures a == a' && b == b'
  {
    assert a == (a + b)[..|a|] && b == (a + b)[|a|..];
    assert a' == (a' + b')[..|a|] && b' == (a' + b')[|a|..];
  }

  ghost predicate WellSized(h: Hash, b: Block) {
    VerifyBlock(h, b) == Some(true) && |b.prevHash| == |b.commitment| == 32
  }

  /** The encoding that is hashed for a block; nothing is when a field overflows. */
  function Preimage(b: Block): Bytes {
    if FitsEightBytes(b.index) && FitsEightBytes(Micros(b.timestamp))
    then Encode(b.index, b.prevHash, b.commitment, Micros(b.timestamp), b.metadata)
    else []
  }

  function Encodings(blocks: seq<Block>): (r: seq<Bytes>)
    ensures |r| == |blocks|
  {
    seq(|blocks|, i requires 0 <= i < |blocks| => Preimage(blocks[i]))
  }

  ghost predicate SameContent(b: Block, c: Block) {
    && b.index == c.index && b.prevHash == c.prevHash && b.commitment == c.commitment
    && Micros(b.timestamp) == Micros(c.timestamp) && b.metadata == c.metadata && b.blockHash == c.blockHash
  }

  lemma {:induction false} BlockHashBinds(h: Hash, b: Block, c: Block)
    requires WellSized(h, b) && WellSized(h, c) && b.blockHash == c.blockHash
    ensures SameContent(b, c) || Collision(h, Preimage(b), Preimage(c))
  {
    if Preimage(b) == Preimage(c) {
      EncodeInjective(b.index, b.prevHash, b.commitment, Micros(b.timestamp), b.metadata,
                      c.index, c.prevHash, c.commitment, Micros(c.timestamp), c.metadata);
    }
  }

  ghost predicate SameHistory(a: seq<Block>, b: seq<Block>) {
    |a| == |b| && forall i :: 0 <= i < |a| ==> SameContent(a[i], b[i])
  }

  lemma {:induction false} BuiltIsWellSized(h: Hash, g: Bytes, blocks: seq<Block>, i: nat)
    requires Built(h, g, blocks) && i < |blocks|
    ensures WellSized(h, blocks[i])
  {
    assert i > 0 ==> VerifyBlock(h, blocks[i - 1]) == Some(true);
  }

  lemma {:induction false} BuiltPrefix(h: Hash, g: Bytes, blocks: seq<Block>)
    requires Built(h, g, blocks) && |blocks| > 1
    ensures Built(h, g, blocks[..|blocks| - 1])
  {
  }

  /** Equal tip hashes: the tips have the same content, hence the same height, and the blocks below the same hash. */
  lemma {:induction false} TipsBind(h: Hash, g: Bytes, a: seq<Block>, g': Bytes, b: seq<Block>)
    requires Built(h, g, a) && Built(h, g', b) && a[|a| - 1].blockHash == b[|b| - 1].blockHash
    ensures Collision(h, Preimage(a[|a| - 1]), Preimage(b[|b| - 1]))
         || (SameContent(a[|a| - 1], b[|b| - 1]) && |a| == |b| && (|a| > 1 ==> a[|a| - 2].blockHash == b[|b| - 2].blockHash))
  {
    BuiltIsWellSized(h, g, a, |a| - 1);
    BuiltIsWellSized(h, g', b, |b| - 1);
    BlockHashBinds(h, a[|a| - 1], b[|b| - 1]);
  }

  lemma {:induction false} SameHistoryExtends(a: seq<Block>, b: seq<Block>)
    requires a != [] && |a| == |b| && SameContent(a[|a| - 1], b[|b| - 1])
    ensures SameHistory(a[..|a| - 1], b[..|b| - 1]) ==> SameHistory(a, b)
  {
    if SameHistory(a[..|a| - 1], b[..|b| - 1]) {
      forall i | 0 <= i < |a| ensures SameContent(a[i], b[i]) {
        assert i < |a| - 1 ==> SameContent(a[..|a| - 1][i], b[..|b| - 1][i]);
      }
    }
  }

  /** Two built chains, whatever their genesis payloads and heights, with the same tip hash have the same height and the
  same content in every block, unless the encodings of block `i` of one and block `j` of the other collide. */
  lemma {:induction false} TipBindsHistory(h: Hash, g: Bytes, a: seq<Block>, g': Bytes, b: seq<Block>)
    returns (i: nat, j: nat)
    requires Built(h, g, a) && Built(h, g', b)
    requires a[|a| - 1].blockHash == b[|b| - 1].blockHash
    ensures i < |a| && j < |b|
    ensures SameHistory(a, b) || Collision(h, Preimage(a[i]), Preimage(b[j]))
    decreases |a|
  {
    i, j := |a| - 1, |b| - 1;
    TipsBind(h, g, a, g', b);
    if !Collision(h, Preimage(a[i]), Preimage(b[j])) && |a| > 1 {
      BuiltPrefix(h, g, a);
      BuiltPrefix(h, g', b);
      i, j := TipBindsHistory(h, g, a[..|a| - 1], g', b[..|b| - 1]);
      SameHistoryExtends(a, b);
    }
  }
}
