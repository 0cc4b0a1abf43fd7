/** The static, sorted-pair Merkle tree of noema/audit/merkle_proof.py: level building, the root,
and inclusion proofs. Everything is related to one reference, `Node`: the tree over the unbounded
leaf sequence in which the last leaf repeats for ever. */
module StaticMerkle {
  import opened Bytes
  import opened Sequences

  const DOMAIN: Bytes :=
    [78, 79, 69, 77, 65, 95, 70, 82, 65, 77, 69, 87, 79, 82, 75, 95, 65, 85, 68, 73, 84, 95, 86, 49]

  function SafeHash(h: Hash, data: Bytes): Digest {
    h(DOMAIN + data)
  }

  function HashPair(h: Hash, left: Bytes, right: Bytes): Digest {
    if LexLess(left, right) then SafeHash(h, left + right) else SafeHash(h, right + left)
  }

  /** A pair is hashed behind the domain separator, the smaller string first. */
  lemma {:induction false} HashPairSorts(h: Hash, a: Bytes, b: Bytes)
    requires LexLess(a, b) || a == b
    ensures HashPair(h, a, b) == HashPair(h, b, a) == h(DOMAIN + (a + b))
    ensures |DOMAIN| == 24 && forall i :: 0 <= i < 24 ==> DOMAIN[i] as int == "NOEMA_FRAMEWORK_AUDIT_V1"[i] as int
  {
    LexTrichotomy(a, b);
  }

  // ---------- powers of two ----------

  function Pow2(k: nat): (p: nat)
    ensures p > 0
  {
    if k == 0 then 1 else 2 * Pow2(k - 1)
  }

  /** `int.bit_length`. */
  function BitLength(m: nat): nat {
    if m == 0 then 0 else 1 + BitLength(m / 2)
  }

  /** `m >> k`. */
  function Shr(m: nat, k: nat): nat {
    if k == 0 then m else Shr(m, k - 1) / 2
  }

  /** The number of levels above the leaves. */
  function Depth(n: nat): nat
    requires n > 0
  {
    BitLength(n - 1)
  }

  function NextPow2(n: nat): nat {
    if n > 0 then Pow2(BitLength(n - 1)) else 1
  }

  lemma {:induction false} BitLengthBounds(m: nat)
    ensures m < Pow2(BitLength(m))
    ensures m > 0 ==> Pow2(BitLength(m) - 1) <= m
  {
    if m > 0 {
      BitLengthBounds(m / 2);
    }
  }

  /** `_next_pow2` is the least power of two that is at least `n`. */
  lemma {:induction false} NextPow2IsLeast(n: nat, k: nat)
    ensures n <= NextPow2(n)
    ensures n <= Pow2(k) ==> NextPow2(n) <= Pow2(k)
  {
    if n > 0 {
      BitLengthBounds(n - 1);
      if n <= Pow2(k) && BitLength(n - 1) > k {
        Pow2Monotone(k, BitLength(n - 1) - 1);
      } else if BitLength(n - 1) <= k {
        Pow2Monotone(BitLength(n - 1), k);
      }
    }
  }

  lemma {:induction false} Pow2Monotone(a: nat, b: nat)
    requires a <= b
    ensures Pow2(a) <= Pow2(b)
  {
    if a < b {
      Pow2Monotone(a, b - 1);
    }
  }

  lemma {:induction false} BitLengthOfPow2(k: nat)
    ensures BitLength(Pow2(k)) == k + 1
  {
    if k > 0 {
      BitLengthOfPow2(k - 1);
    }
  }

  /** One more leaf keeps the depth exactly when the leaves do not fill the tree. */
  lemma {:induction false} DepthStays(n: nat)
    requires n > 0
    ensures n <= NextPow2(n)
    ensures n < NextPow2(n) <==> Depth(n + 1) == Depth(n)
  {
    var d, e := BitLength(n - 1), BitLength(n);
    BitLengthBounds(n - 1);
    BitLengthBounds(n);
    if d < e {
      Pow2Monotone(d, e - 1);
    } else if e < d {
      Pow2Monotone(e, d - 1);
    }
  }

  lemma {:induction false} ShrMonotone(a: nat, b: nat, k: nat)
    requires a <= b
    ensures Shr(a, k) <= Shr(b, k)
  {
    if k > 0 {
      ShrMonotone(a, b, k - 1);
    }
  }

  lemma {:induction false} ShrHead(m: nat, k: nat)
    ensures Shr(m, k + 1) == Shr(m / 2, k)
  {
    if k > 0 {
      ShrHead(m, k - 1);
    }
  }

  lemma {:induction false} ShrBitLength(m: nat)
    ensures Shr(m, BitLength(m)) == 0
    ensures m > 0 ==> Shr(m, BitLength(m) - 1) == 1
  {
    if m > 0 {
      ShrBitLength(m / 2);
      ShrHead(m, BitLength(m) - 1);
      if m > 1 {
        ShrHead(m, BitLength(m) - 2);
      }
    }
  }

  /** A leaf's ancestor at level `k` is inside that level. */
  lemma {:induction false} ShrInRange(i: nat, d: nat, k: nat)
    requires i < Pow2(d) && k <= d
    ensures Shr(i, k) < Pow2(d - k)
  {
    if k > 0 {
      ShrInRange(i, d, k - 1);
    }
  }

  // ---------- the reference tree ----------

  /** Leaf `i` of the list whose last leaf repeats for ever. */
  function LeafAt(leaves: seq<Bytes>, i: nat): Bytes
    requires leaves != []
  {
    leaves[if i < |leaves| then i else |leaves| - 1]
  }

  /** The `n` leaves from position `from` on. */
  function Segment(leaves: seq<Bytes>, from: nat, n: nat): (r: seq<Bytes>)
    requires leaves != []
    ensures |r| == n
  {
    seq(n, (i: nat) => LeafAt(leaves, from + i))
  }

  /** The leaves padded with copies of the last one. */
  function Padded(leaves: seq<Bytes>): seq<Bytes>
    requires leaves != []
  {
    Segment(leaves, 0, NextPow2(|leaves|))
  }

  /** Node `j` of level `k` over the leaves, the last of which repeats for ever. */
  function Node(h: Hash, leaves: seq<Bytes>, k: nat, j: nat): Bytes
    requires leaves != []
    decreases k
  {
    if k == 0 then LeafAt(leaves, j)
    else HashPair(h, Node(h, leaves, k - 1, 2 * j), Node(h, leaves, k - 1, 2 * j + 1))
  }

  function StaticLevel(h: Hash, leaves: seq<Bytes>, k: nat): (level: seq<Bytes>)
    requires leaves != [] && k <= Depth(|leaves|)
  {
    seq(Pow2(Depth(|leaves|) - k), (j: nat) => Node(h, leaves, k, j))
  }

  function StaticLevels(h: Hash, leaves: seq<Bytes>): (levels: seq<seq<Bytes>>)
    requires leaves != []
  {
    seq(Depth(|leaves|) + 1, k requires 0 <= k < Depth(|leaves|) + 1 => StaticLevel(h, leaves, k))
  }

  function Root(h: Hash, leaves: seq<Bytes>): Bytes {
    if leaves == [] then ZERO32 else Node(h, leaves, Depth(|leaves|), 0)
  }

  function Sibling(j: nat): nat {
    if j % 2 == 0 then j + 1 else j - 1
  }

  /** The sibling of leaf `i`'s ancestor at level `k`, and whether that ancestor is a right child. */
  function PathStep(h: Hash, leaves: seq<Bytes>, i: nat, k: nat): (Bytes, bool)
    requires leaves != []
  {
    (Node(h, leaves, k, Sibling(Shr(i, k))), Shr(i, k) % 2 != 0)
  }

  /** The authentication path of leaf `i`. */
  function Path(h: Hash, leaves: seq<Bytes>, i: nat): (path: seq<(Bytes, bool)>)
    requires leaves != []
  {
    seq(Depth(|leaves|), (k: nat) => PathStep(h, leaves, i, k))
  }

  // ---------- the static builder ----------

  method PadSequence(s: seq<Bytes>) returns (out: seq<Bytes>)
    requires s != []
    ensures |out| == NextPow2(|s|) && s <= out
    ensures forall i :: |s| <= i < |out| ==> out[i] == s[|s| - 1]
    ensures out == Padded(s)
  {
    NextPow2IsLeast(|s|, 0);
    out := s + seq(NextPow2(|s|) - |s|, _ => s[|s| - 1]);
  }

  method ParentLevel(h: Hash, level: seq<Bytes>) returns (parent: seq<Bytes>)
    requires |level| % 2 == 0
    ensures |parent| == |level| / 2
    ensures forall j :: 0 <= j < |parent| ==> parent[j] == HashPair(h, level[2 * j], level[2 * j + 1])
  {
    parent := [];
    var i := 0;
    while i < |level|
      invariant 0 <= i <= |level| && i % 2 == 0 && |parent| == i / 2
      invariant forall j :: 0 <= j < |parent| ==> parent[j] == HashPair(h, level[2 * j], level[2 * j + 1])
    {
      parent := parent + [HashPair(h, level[i], level[i + 1])];
      i := i + 2;
    }
  }

  lemma {:induction false} ParentIsNextLevel(h: Hash, leaves: seq<Bytes>, k: nat, parent: seq<Bytes>)
    requires leaves != [] && k < Depth(|leaves|)
    requires var level := StaticLevel(h, leaves, k);
             |parent| == |level| / 2 && forall j :: 0 <= j < |parent| ==>
               2 * j + 1 < |level| && parent[j] == HashPair(h, level[2 * j], level[2 * j + 1])
    ensures parent == StaticLevel(h, leaves, k + 1)
  {
    var d := Depth(|leaves|);
    assert Pow2(d - k) == 2 * Pow2(d - k - 1);
    forall j | 0 <= j < |parent| ensures parent[j] == Node(h, leaves, k + 1, j) {
    }
  }

  lemma {:induction false} PaddedIsFirstLevel(h: Hash, leaves: seq<Bytes>, padded: seq<Bytes>)
    requires leaves != [] && |padded| == NextPow2(|leaves|) && leaves <= padded
    requires forall i :: |leaves| <= i < |padded| ==> padded[i] == leaves[|leaves| - 1]
    ensures padded == StaticLevel(h, leaves, 0)
  {
  }

  lemma {:induction false} LevelSize(n: nat, k: nat)
    requires n > 0 && k <= Depth(n)
    ensures Pow2(Depth(n) - k) == 1 || (k < Depth(n) && Pow2(Depth(n) - k) % 2 == 0)
    ensures Pow2(Depth(n) - k) == 1 <==> k == Depth(n)
  {
  }

  method BuildLevels(h: Hash, leaves: seq<Bytes>) returns (levels: seq<seq<Bytes>>)
    requires leaves != []
    ensures levels == StaticLevels(h, leaves)
  {
    var padded := PadSequence(leaves);
    PaddedIsFirstLevel(h, leaves, padded);
    levels := [padded];
    LevelSize(|leaves|, 0);
    while |levels[|levels| - 1]| > 1
      invariant 1 <= |levels| <= Depth(|leaves|) + 1
      invariant levels == StaticLevels(h, leaves)[..|levels|]
      invariant |levels[|levels| - 1]| == 1 <==> |levels| == Depth(|leaves|) + 1
      decreases Depth(|leaves|) + 1 - |levels|
    {
      ghost var k := |levels| - 1;
      var level := levels[|levels| - 1];
      LevelSize(|leaves|, k);
      LevelSize(|leaves|, k + 1);
      assert level == StaticLevel(h, leaves, k);
      var parent := ParentLevel(h, level);
      ParentIsNextLevel(h, leaves, k, parent);
      PrefixGrows(StaticLevels(h, leaves), k + 1);
      levels := levels + [parent];
    }
  }

  method ComputeRoot(h: Hash, leaves: seq<Bytes>) returns (root: Bytes)
    ensures root == Root(h, leaves)
  {
    if leaves == [] {
      return ZERO32;
    }
    var levels := BuildLevels(h, leaves);
    root := levels[|levels| - 1][0];
  }

  // ---------- inclusion proofs ----------

  datatype InclusionProof =
    InclusionProof(leafHash: Bytes, path: seq<(Bytes, bool)>, rootHash: Bytes, blockIndex: nat)

  datatype ProofResult = Proved(proof: InclusionProof) | EmptyLeaves | IndexOutOfRange

  method GenerateInclusionProof(h: Hash, leafData: Bytes, leafIndex: int, leaves: seq<Bytes>)
    returns (r: ProofResult)
    ensures leaves == [] ==> r == EmptyLeaves
    ensures leaves != [] && !(0 <= leafIndex < |leaves|) ==> r == IndexOutOfRange
    ensures 0 <= leafIndex < |leaves| ==>
      r == Proved(InclusionProof(SafeHash(h, leafData), Path(h, leaves, leafIndex), Root(h, leaves), leafIndex))
  {
    if leaves == [] {
      return EmptyLeaves;
    }
    if leafIndex < 0 || leafIndex >= |leaves| {
      return IndexOutOfRange;
    }
    var leafHash := SafeHash(h, leafData);
    var levels := BuildLevels(h, leaves);
    var path := PathFromLevels(h, leaves, levels, leafIndex);
    return Proved(InclusionProof(leafHash, path, levels[|levels| - 1][0], leafIndex));
  }

  /** The sibling of a leaf's ancestor is in the same level, at the index the path records. */
  lemma {:induction false} SiblingInLevel(h: Hash, leaves: seq<Bytes>, i: nat, k: nat)
    requires i < |leaves| && k < Depth(|leaves|)
    ensures var level := StaticLevel(h, leaves, k);
            Sibling(Shr(i, k)) < |level| && level[Sibling(Shr(i, k))] == PathStep(h, leaves, i, k).0
  {
    NextPow2IsLeast(|leaves|, 0);
    ShrInRange(i, Depth(|leaves|), k);
    LevelSize(|leaves|, k);
  }

  /** The sibling of a node of a level, and whether the node is a right child. */
  function StepAt(level: seq<Bytes>, idx: nat): (Bytes, bool)
    requires Sibling(idx) < |level|
  {
    if idx % 2 == 0 then (level[idx + 1], false) else (level[idx - 1], true)
  }

  lemma {:induction false} StepInLevel(h: Hash, leaves: seq<Bytes>, i: nat, k: nat, level: seq<Bytes>)
    requires i < |leaves| && k < Depth(|leaves|) && level == StaticLevels(h, leaves)[k]
    ensures Sibling(Shr(i, k)) < |level| && StepAt(level, Shr(i, k)) == Path(h, leaves, i)[k]
  {
    assert level == StaticLevel(h, leaves, k);
    SiblingInLevel(h, leaves, i, k);
  }

  method PathFromLevels(ghost h: Hash, ghost leaves: seq<Bytes>, levels: seq<seq<Bytes>>, leafIndex: nat)
    returns (path: seq<(Bytes, bool)>)
    requires leafIndex < |leaves| && levels == StaticLevels(h, leaves)
    ensures path == Path(h, leaves, leafIndex)
  {
    path := [];
    var idx := leafIndex;
    for k := 0 to |levels| - 1
      invariant path == Path(h, leaves, leafIndex)[..k] && idx == Shr(leafIndex, k)
    {
      var level := levels[k];
      StepInLevel(h, leaves, leafIndex, k, level);
      PrefixGrows(Path(h, leaves, leafIndex), k);
      path := path + [StepAt(level, idx)];
      idx := idx / 2;
    }
  }

  /** One step of climbing: hash an ancestor with its sibling, on the side that the path records. */
  function ClimbStep(h: Hash, current: Bytes, step: (Bytes, bool)): Bytes {
    if step.1 then HashPair(h, step.0, current) else HashPair(h, current, step.0)
  }

  /** The digest reached by climbing a path from `current`. */
  function Climb(h: Hash, current: Bytes, path: seq<(Bytes, bool)>): Bytes
    decreases |path|
  {
    if path == [] then current else Climb(h, ClimbStep(h, current, path[0]), path[1..])
  }

  predicate Accepts(h: Hash, proof: InclusionProof, leafData: Bytes) {
    SafeHash(h, leafData) == proof.leafHash && Climb(h, SafeHash(h, leafData), proof.path) == proof.rootHash
  }

  method VerifyInclusionProof(h: Hash, proof: InclusionProof, leafData: Bytes) returns (ok: bool)
    ensures ok <==> Accepts(h, proof, leafData)
  {
    var current: Bytes := SafeHash(h, leafData);
    if current != proof.leafHash {
      return false;
    }
    for i := 0 to |proof.path|
      invariant Climb(h, current, proof.path[i..]) == Climb(h, SafeHash(h, leafData), proof.path)
    {
      var (sibling, isRight) := proof.path[i];
      assert proof.path[i..][1..] == proof.path[i + 1..];
      current := if isRight then HashPair(h, sibling, current) else HashPair(h, current, sibling);
    }
    assert proof.path[|proof.path|..] == [];
    return current == proof.rootHash;
  }

  // ---------- completeness ----------

  lemma {:induction false} StepReachesParent(h: Hash, leaves: seq<Bytes>, i: nat, k: nat)
    requires leaves != []
    ensures ClimbStep(h, Node(h, leaves, k, Shr(i, k)), PathStep(h, leaves, i, k)) == Node(h, leaves, k + 1, Shr(i, k + 1))
  {
    assert Shr(i, k + 1) == Shr(i, k) / 2;
    ParentOfEither(h, leaves, k, Shr(i, k));
  }

  lemma {:induction false} ParentOfEither(h: Hash, leaves: seq<Bytes>, k: nat, j: nat)
    requires leaves != []
    ensures ClimbStep(h, Node(h, leaves, k, j), (Node(h, leaves, k, Sibling(j)), j % 2 != 0)) == Node(h, leaves, k + 1, j / 2)
  {
    if j % 2 == 0 {
      assert j == 2 * (j / 2);
    } else {
      assert j == 2 * (j / 2) + 1;
    }
  }

  /** The flag of a path step says that the sibling stands to the left: read in that order, ancestor and sibling are the
  left and the right child of the next ancestor. */
  lemma {:induction false} SidesTell(h: Hash, leaves: seq<Bytes>, i: nat, k: nat)
    requires i < |leaves| && k < Depth(|leaves|)
    ensures var (sibling, left) := Path(h, leaves, i)[k];
            var node, j := Node(h, leaves, k, Shr(i, k)), Shr(i, k + 1);
            (if left then (sibling, node) else (node, sibling)) == (Node(h, leaves, k, 2 * j), Node(h, leaves, k, 2 * j + 1))
    ensures Path(h, leaves, i)[k].1 <==> Shr(i, k) == 2 * Shr(i, k + 1) + 1
  {
    assert Shr(i, k + 1) == Shr(i, k) / 2;
  }

  /** The root of nothing is 32 zero bytes, and the root of one leaf is that leaf. */
  lemma {:induction false} SmallRoots(h: Hash, leaf: Bytes)
    ensures |Root(h, [])| == 32 && (forall i :: 0 <= i < 32 ==> Root(h, [])[i] as int == 0)
    ensures Root(h, [leaf]) == leaf
  {
  }

  lemma {:induction false} PathTail(h: Hash, leaves: seq<Bytes>, i: nat, k: nat)
    requires leaves != [] && k < Depth(|leaves|)
    ensures var path := Path(h, leaves, i); path[k..][0] == PathStep(h, leaves, i, k) && path[k..][1..] == path[k + 1..]
  {
  }

  lemma {:induction false} ClimbFrom(h: Hash, current: Bytes, path: seq<(Bytes, bool)>, up: Bytes)
    requires path != [] && ClimbStep(h, current, path[0]) == up
    ensures Climb(h, current, path) == Climb(h, up, path[1..])
  {
  }

  /** At the top level every leaf's ancestor is the root. */
  lemma {:induction false} TopOfPath(n: nat, i: nat)
    requires i < n
    ensures Shr(i, Depth(n)) == 0
  {
    ShrMonotone(i, n - 1, Depth(n));
    ShrBitLength(n - 1);
  }

  lemma {:induction false} PathClimbsToRoot(h: Hash, leaves: seq<Bytes>, i: nat, k: nat)
    requires i < |leaves| && k <= Depth(|leaves|)
    ensures Climb(h, Node(h, leaves, k, Shr(i, k)), Path(h, leaves, i)[k..]) == Root(h, leaves)
    decreases Depth(|leaves|) - k
  {
    var d := Depth(|leaves|);
    if k == d {
      TopOfPath(|leaves|, i);
    } else {
      PathClimbsToRoot(h, leaves, i, k + 1);
      PathTail(h, leaves, i, k);
      StepReachesParent(h, leaves, i, k);
      ClimbFrom(h, Node(h, leaves, k, Shr(i, k)), Path(h, leaves, i)[k..], Node(h, leaves, k + 1, Shr(i, k + 1)));
    }
  }

  // ---------- binding up to named collisions ----------

  lemma {:induction false} HashPairCommutes(h: Hash, a: Bytes, b: Bytes)
    ensures HashPair(h, a, b) == HashPair(h, b, a)
  {
    LexTrichotomy(a, b);
  }

  /** The two preimages hashed for two pairs; they differ whenever they are a collision. */
  function Preimage(a: Bytes, b: Bytes): Bytes {
    DOMAIN + if LexLess(a, b) then a + b else b + a
  }

  /** A pair digest pins its two 32-byte children as a set; the other pair's second component may
  have any length, and turns out to be 32 bytes long. */
  lemma {:induction false} HashPairBinds(h: Hash, a: Bytes, b: Bytes, c: Bytes, d: Bytes)
    requires |a| == |b| == |c| == 32
    requires HashPair(h, a, b) == HashPair(h, c, d)
    ensures (a, b) == (c, d) || (a, b) == (d, c) || Collision(h, Preimage(a, b), Preimage(c, d))
  {
    var p, q := Preimage(a, b), Preimage(c, d);
    if p == q {
      var n := |DOMAIN|;
      var x, y := if LexLess(a, b) then a + b else b + a, if LexLess(c, d) then c + d else d + c;
      assert x == p[n..] == q[n..] == y;
      assert |d| == 32;
      assert x[..32] == if LexLess(a, b) then a else b;
      assert x[32..] == if LexLess(a, b) then b else a;
      assert y[..32] == if LexLess(c, d) then c else d;
      assert y[32..] == if LexLess(c, d) then d else c;
    }
  }

  ghost predicate AllDigests(leaves: seq<Bytes>) {
    forall i :: 0 <= i < |leaves| ==> |leaves[i]| == 32
  }

  lemma {:induction false} NodeIsDigest(h: Hash, leaves: seq<Bytes>, k: nat, j: nat)
    requires leaves != [] && AllDigests(leaves)
    ensures |Node(h, leaves, k, j)| == 32
  {
  }

  // ---------- the strings that are hashed ----------

  /** The string hashed for node `j` of level `k + 1`. */
  function NodeInput(h: Hash, leaves: seq<Bytes>, k: nat, j: nat): Bytes
    requires leaves != []
  {
    Preimage(Node(h, leaves, k, 2 * j), Node(h, leaves, k, 2 * j + 1))
  }

  /** Node `j` of level `k + 1` is in the tree over `n` leaves. */
  ghost predicate IsInner(n: nat, k: nat, j: nat) {
    n > 0 && k < Depth(n) && j < Pow2(Depth(n) - k - 1)
  }

  /** A string that is hashed to build the tree. */
  ghost predicate HashedInTree(h: Hash, leaves: seq<Bytes>, x: Bytes) {
    leaves != [] && exists k, j :: IsInner(|leaves|, k, j) && x == NodeInput(h, leaves, k, j)
  }

  /** A string that is hashed to climb a path. */
  ghost predicate HashedOnPath(h: Hash, current: Bytes, path: seq<(Bytes, bool)>, x: Bytes)
    decreases |path|
  {
    path != [] &&
    (x == Preimage(current, path[0].0) || HashedOnPath(h, ClimbStep(h, current, path[0]), path[1..], x))
  }

  /** Two different strings with one digest, one hashed to build the tree, the other to climb the path. */
  ghost predicate PathCollides(h: Hash, leaves: seq<Bytes>, current: Bytes, path: seq<(Bytes, bool)>, x: Bytes, y: Bytes) {
    HashedInTree(h, leaves, x) && HashedOnPath(h, current, path, y) && Collision(h, x, y)
  }

  lemma {:induction false} StepIsPair(h: Hash, current: Bytes, step: (Bytes, bool))
    ensures ClimbStep(h, current, step) == HashPair(h, current, step.0) == h(Preimage(current, step.0))
  {
    HashPairCommutes(h, current, step.0);
  }

  lemma {:induction false} ChildOfNode(h: Hash, leaves: seq<Bytes>, k: nat, i: nat, current: Bytes, sibling: Bytes) returns (j: nat)
    requires leaves != [] && AllDigests(leaves) && |current| == 32
    requires HashPair(h, current, sibling) == Node(h, leaves, k + 1, i)
    ensures j / 2 == i
    ensures current == Node(h, leaves, k, j) || Collision(h, NodeInput(h, leaves, k, i), Preimage(current, sibling))
  {
    var a, b := Node(h, leaves, k, 2 * i), Node(h, leaves, k, 2 * i + 1);
    NodeIsDigest(h, leaves, k, 2 * i);
    NodeIsDigest(h, leaves, k, 2 * i + 1);
    HashPairBinds(h, a, b, current, sibling);
    j := if current == a then 2 * i else 2 * i + 1;
  }

  lemma {:induction false} PathCollidesAbove(h: Hash, leaves: seq<Bytes>, current: Bytes, path: seq<(Bytes, bool)>, x: Bytes, y: Bytes)
    requires path != [] && PathCollides(h, leaves, ClimbStep(h, current, path[0]), path[1..], x, y)
    ensures PathCollides(h, leaves, current, path, x, y)
  {
  }

  lemma {:induction false} PathCollidesHere(h: Hash, leaves: seq<Bytes>, current: Bytes, path: seq<(Bytes, bool)>, k: nat, i: nat)
    requires path != [] && leaves != [] && IsInner(|leaves|, k, i)
    requires Collision(h, NodeInput(h, leaves, k, i), Preimage(current, path[0].0))
    ensures PathCollides(h, leaves, current, path, NodeInput(h, leaves, k, i), Preimage(current, path[0].0))
  {
  }

  /** One step down: what climbs to a node is one of its children, or collides with them. */
  lemma {:induction false} SoundStep(h: Hash, leaves: seq<Bytes>, current: Bytes, path: seq<(Bytes, bool)>, i: nat)
    returns (j: nat, x: Bytes, y: Bytes)
    requires leaves != [] && AllDigests(leaves) && |current| == 32
    requires 0 < |path| <= Depth(|leaves|) && i < Pow2(|path| - 1)
    requires ClimbStep(h, current, path[0]) == Node(h, leaves, Depth(|leaves|) - |path| + 1, i)
    ensures PathCollides(h, leaves, current, path, x, y)
         || (j < Pow2(|path|) && current == Node(h, leaves, Depth(|leaves|) - |path|, j))
  {
    var k := Depth(|leaves|) - |path|;
    StepIsPair(h, current, path[0]);
    j := ChildOfNode(h, leaves, k, i, current, path[0].0);
    x, y := NodeInput(h, leaves, k, i), Preimage(current, path[0].0);
    if current != Node(h, leaves, k, j) {
      PathCollidesHere(h, leaves, current, path, k, i);
    }
  }

  /** Soundness. A path of any length `p` up to the tree depth that climbs from a digest to the root starts at one of
  the nodes that lie `p` levels below the root, unless a string hashed on the path collides with one of the tree. */
  lemma {:induction false} ClimbIsSound(h: Hash, leaves: seq<Bytes>, current: Bytes, path: seq<(Bytes, bool)>)
    returns (j: nat, x: Bytes, y: Bytes)
    requires leaves != [] && AllDigests(leaves) && |current| == 32
    requires |path| <= Depth(|leaves|) && Climb(h, current, path) == Root(h, leaves)
    ensures PathCollides(h, leaves, current, path, x, y)
         || (j < Pow2(|path|) && current == Node(h, leaves, Depth(|leaves|) - |path|, j))
    decreases |path|
  {
    j, x, y := 0, [], [];
    if path != [] {
      var up := ClimbStep(h, current, path[0]);
      j, x, y := ClimbIsSound(h, leaves, up, path[1..]);
      if PathCollides(h, leaves, up, path[1..], x, y) {
        PathCollidesAbove(h, leaves, current, path, x, y);
      } else {
        j, x, y := SoundStep(h, leaves, current, path, j);
      }
    }
  }

  /** An accepted proof of full length against the root of `leaves` is a proof about one of them. */
  lemma {:induction false} AcceptedLeafIsMember(h: Hash, leaves: seq<Bytes>, proof: InclusionProof, leafData: Bytes)
    returns (x: Bytes, y: Bytes)
    requires leaves != [] && AllDigests(leaves)
    requires |proof.path| == Depth(|leaves|) && proof.rootHash == Root(h, leaves)
    requires Accepts(h, proof, leafData)
    ensures proof.leafHash in leaves || PathCollides(h, leaves, proof.leafHash, proof.path, x, y)
  {
    var j;
    j, x, y := ClimbIsSound(h, leaves, SafeHash(h, leafData), proof.path);
  }

  /** Two different strings with one digest, hashed to climb the same path from two starts. */
  ghost predicate StartsCollide(h: Hash, a: Bytes, b: Bytes, path: seq<(Bytes, bool)>, x: Bytes, y: Bytes) {
    HashedOnPath(h, a, path, x) && HashedOnPath(h, b, path, y) && Collision(h, x, y)
  }

  lemma {:induction false} StartsCollideAbove(h: Hash, a: Bytes, b: Bytes, path: seq<(Bytes, bool)>, x: Bytes, y: Bytes)
    requires path != [] && StartsCollide(h, ClimbStep(h, a, path[0]), ClimbStep(h, b, path[0]), path[1..], x, y)
    ensures StartsCollide(h, a, b, path, x, y)
  {
  }

  /** Along one fixed path of digests, climbing is injective unless two of the strings hashed on the way collide. */
  lemma {:induction false} ClimbIsInjective(h: Hash, a: Bytes, b: Bytes, path: seq<(Bytes, bool)>)
    returns (x: Bytes, y: Bytes)
    requires |a| == |b| == 32 && forall k :: 0 <= k < |path| ==> |path[k].0| == 32
    requires Climb(h, a, path) == Climb(h, b, path)
    ensures a == b || StartsCollide(h, a, b, path, x, y)
    decreases |path|
  {
    x, y := [], [];
    if path != [] {
      var s, a', b' := path[0].0, ClimbStep(h, a, path[0]), ClimbStep(h, b, path[0]);
      StepIsPair(h, a, path[0]);
      StepIsPair(h, b, path[0]);
      x, y := ClimbIsInjective(h, a', b', path[1..]);
      if StartsCollide(h, a', b', path[1..], x, y) {
        StartsCollideAbove(h, a, b, path, x, y);
      } else {
        HashPairBinds(h, a, s, b, s);
        x, y := Preimage(a, s), Preimage(b, s);
      }
    }
  }

  /** The proof generated for position `i` is accepted for data `d` exactly when the proof was made for data with the
  digest of `d` and that digest is leaf `i`, unless strings hashed to climb from the two collide. */
  lemma {:induction false} GeneratedProofAccepts(h: Hash, leaves: seq<Bytes>, i: nat, proofData: Bytes, d: Bytes)
    returns (x: Bytes, y: Bytes)
    requires i < |leaves| && AllDigests(leaves)
    ensures var proof := InclusionProof(SafeHash(h, proofData), Path(h, leaves, i), Root(h, leaves), i);
            var good := SafeHash(h, d) == SafeHash(h, proofData) && SafeHash(h, d) == leaves[i];
            && (good ==> Accepts(h, proof, d))
            && (Accepts(h, proof, d) ==> good || StartsCollide(h, SafeHash(h, d), leaves[i], proof.path, x, y))
  {
    var path := Path(h, leaves, i);
    x, y := [], [];
    PathClimbsToRoot(h, leaves, i, 0);
    assert path[0..] == path;
    forall k | 0 <= k < |path| ensures |path[k].0| == 32 {
      NodeIsDigest(h, leaves, k, Sibling(Shr(i, k)));
    }
    if Climb(h, SafeHash(h, d), path) == Root(h, leaves) {
      x, y := ClimbIsInjective(h, SafeHash(h, d), leaves[i], path);
    }
  }

  /** The side flags carry no information: a path is accepted whatever its flags say. */
  lemma {:induction false} SidesDoNotMatter(h: Hash, current: Bytes, p: seq<(Bytes, bool)>, q: seq<(Bytes, bool)>)
    requires |p| == |q| && forall k :: 0 <= k < |p| ==> p[k].0 == q[k].0
    ensures Climb(h, current, p) == Climb(h, current, q)
    decreases |p|
  {
    if p != [] {
      HashPairCommutes(h, p[0].0, current);
      SidesDoNotMatter(h, HashPair(h, p[0].0, current), p[1..], q[1..]);
    }
  }

  // ---------- what the root binds ----------

  /** The first leaf under node `j` of level `k`. */
  function FirstUnder(k: nat, j: nat): nat
    decreases k
  {
    if k == 0 then j else FirstUnder(k - 1, 2 * j)
  }

  lemma {:induction false} FirstUnderNext(k: nat, j: nat)
    ensures FirstUnder(k, j + 1) == FirstUnder(k, j) + Pow2(k)
    ensures j == 0 ==> FirstUnder(k, j) == 0
    decreases k
  {
    if k > 0 {
      FirstUnderNext(k - 1, 2 * j);
      FirstUnderNext(k - 1, 2 * j + 1);
    }
  }

  /** How often `c` is a leaf under node `j` of level `k`. */
  function CountUnder(leaves: seq<Bytes>, k: nat, j: nat, c: Bytes): nat
    requires leaves != []
    decreases k
  {
    if k == 0 then if LeafAt(leaves, j) == c then 1 else 0
    else CountUnder(leaves, k - 1, 2 * j, c) + CountUnder(leaves, k - 1, 2 * j + 1, c)
  }

  lemma {:induction false} SegmentSplits(leaves: seq<Bytes>, from: nat, n: nat, c: Bytes)
    requires leaves != []
    ensures multiset(Segment(leaves, from, 2 * n))[c] == multiset(Segment(leaves, from, n))[c] + multiset(Segment(leaves, from + n, n))[c]
  {
    assert Segment(leaves, from, 2 * n) == Segment(leaves, from, n) + Segment(leaves, from + n, n);
  }

  lemma {:induction false} CountIsOfSegment(leaves: seq<Bytes>, k: nat, j: nat, c: Bytes)
    requires leaves != []
    ensures CountUnder(leaves, k, j, c) == multiset(Segment(leaves, FirstUnder(k, j), Pow2(k)))[c]
    decreases k
  {
    if k == 0 {
      assert Segment(leaves, j, 1) == [LeafAt(leaves, j)];
    } else {
      CountIsOfSegment(leaves, k - 1, 2 * j, c);
      CountIsOfSegment(leaves, k - 1, 2 * j + 1, c);
      FirstUnderNext(k - 1, 2 * j);
      SegmentSplits(leaves, FirstUnder(k, j), Pow2(k - 1), c);
    }
  }

  ghost predicate AreChildren(j: nat, l: nat, r: nat) {
    (l == 2 * j && r == l + 1) || (r == 2 * j && l == r + 1)
  }

  lemma {:induction false} CountOfChildren(leaves: seq<Bytes>, k: nat, j: nat, l: nat, r: nat, c: Bytes)
    requires leaves != [] && AreChildren(j, l, r)
    ensures CountUnder(leaves, k + 1, j, c) == CountUnder(leaves, k, l, c) + CountUnder(leaves, k, r, c)
  {
  }

  /** Equal nodes have the same two children, in one order or the other. */
  lemma {:induction false} ChildrenMatch(h: Hash, a: seq<Bytes>, b: seq<Bytes>, k: nat, i: nat, j: nat) returns (l: nat, r: nat)
    requires a != [] && b != [] && AllDigests(a) && AllDigests(b)
    requires Node(h, a, k + 1, i) == Node(h, b, k + 1, j)
    ensures AreChildren(j, l, r)
    ensures Collision(h, NodeInput(h, a, k, i), NodeInput(h, b, k, j))
         || (Node(h, a, k, 2 * i) == Node(h, b, k, l) && Node(h, a, k, 2 * i + 1) == Node(h, b, k, r))
  {
    var al, ar := Node(h, a, k, 2 * i), Node(h, a, k, 2 * i + 1);
    var bl, br := Node(h, b, k, 2 * j), Node(h, b, k, 2 * j + 1);
    NodeIsDigest(h, a, k, 2 * i);
    NodeIsDigest(h, a, k, 2 * i + 1);
    NodeIsDigest(h, b, k, 2 * j);
    HashPairBinds(h, al, ar, bl, br);
    l, r := 2 * j, 2 * j + 1;
    if !(al == bl && ar == br) {
      l, r := r, l;
    }
  }

  /** Of two equal nodes above different leaves, two equal children are above different leaves. */
  lemma {:induction false} DifferenceBelow(h: Hash, a: seq<Bytes>, b: seq<Bytes>, k: nat, i: nat, j: nat, c: Bytes)
    returns (i': nat, j': nat)
    requires a != [] && b != [] && AllDigests(a) && AllDigests(b)
    requires Node(h, a, k + 1, i) == Node(h, b, k + 1, j) && CountUnder(a, k + 1, i, c) != CountUnder(b, k + 1, j, c)
    ensures i' <= 2 * i + 1 && j' <= 2 * j + 1
    ensures Collision(h, NodeInput(h, a, k, i), NodeInput(h, b, k, j))
         || (Node(h, a, k, i') == Node(h, b, k, j') && CountUnder(a, k, i', c) != CountUnder(b, k, j', c))
  {
    var l, r := ChildrenMatch(h, a, b, k, i, j);
    i', j' := 2 * i, l;
    if CountUnder(a, k, 2 * i, c) == CountUnder(b, k, l, c) {
      i', j' := 2 * i + 1, r;
      CountOfChildren(a, k, i, 2 * i, 2 * i + 1, c);
      CountOfChildren(b, k, j, l, r, c);
    }
  }

  /** Two different strings with one digest, one hashed to build each tree. */
  ghost predicate TreesCollide(h: Hash, a: seq<Bytes>, b: seq<Bytes>, x: Bytes, y: Bytes) {
    HashedInTree(h, a, x) && HashedInTree(h, b, y) && Collision(h, x, y)
  }

  lemma {:induction false} TreesCollideAt(h: Hash, a: seq<Bytes>, b: seq<Bytes>, k: nat, i: nat, j: nat)
    requires a != [] && b != [] && IsInner(|a|, k, i) && IsInner(|b|, k, j)
    requires Collision(h, NodeInput(h, a, k, i), NodeInput(h, b, k, j))
    ensures TreesCollide(h, a, b, NodeInput(h, a, k, i), NodeInput(h, b, k, j))
  {
  }

  /** Two equal nodes of trees of one depth, at the same places, above different numbers of a leaf. */
  ghost predicate Differ(h: Hash, a: seq<Bytes>, b: seq<Bytes>, k: nat, i: nat, j: nat, c: Bytes) {
    && a != [] && b != [] && Depth(|a|) == Depth(|b|) && k <= Depth(|a|)
    && i < Pow2(Depth(|a|) - k) && j < Pow2(Depth(|a|) - k)
    && Node(h, a, k, i) == Node(h, b, k, j) && CountUnder(a, k, i, c) != CountUnder(b, k, j, c)
  }

  lemma {:induction false} DifferIsInner(h: Hash, a: seq<Bytes>, b: seq<Bytes>, k: nat, i: nat, j: nat, c: Bytes)
    requires Differ(h, a, b, k, i, j, c)
    ensures k > 0
  {
  }

  lemma {:induction false} DifferBelow(h: Hash, a: seq<Bytes>, b: seq<Bytes>, k: nat, i: nat, j: nat, c: Bytes)
    returns (i': nat, j': nat)
    requires AllDigests(a) && AllDigests(b) && Differ(h, a, b, k + 1, i, j, c)
    ensures TreesCollide(h, a, b, NodeInput(h, a, k, i), NodeInput(h, b, k, j)) || Differ(h, a, b, k, i', j', c)
  {
    i', j' := DifferenceBelow(h, a, b, k, i, j, c);
    if Collision(h, NodeInput(h, a, k, i), NodeInput(h, b, k, j)) {
      TreesCollideAt(h, a, b, k, i, j);
    } else {
      assert Pow2(Depth(|a|) - k) == 2 * Pow2(Depth(|a|) - (k + 1));
    }
  }

  /** Equal nodes of two trees of one depth, at the same level, stand above the same leaves, each as often, unless two
  strings hashed to build the two trees collide. */
  lemma {:induction false} NodeBindsLeaves(h: Hash, a: seq<Bytes>, b: seq<Bytes>, k: nat, i: nat, j: nat, c: Bytes)
    returns (x: Bytes, y: Bytes)
    requires AllDigests(a) && AllDigests(b) && Differ(h, a, b, k, i, j, c)
    ensures TreesCollide(h, a, b, x, y)
    decreases k
  {
    DifferIsInner(h, a, b, k, i, j, c);
    var i', j' := DifferBelow(h, a, b, k - 1, i, j, c);
    if Differ(h, a, b, k - 1, i', j', c) {
      x, y := NodeBindsLeaves(h, a, b, k - 1, i', j', c);
    } else {
      x, y := NodeInput(h, a, k - 1, i), NodeInput(h, b, k - 1, j);
    }
  }

  /** Two leaf lists of the same depth with the same root have the same padded leaves, up to their order, unless two
  strings hashed to build the two trees collide. */
  lemma {:induction false} RootBindsPaddedLeaves(h: Hash, a: seq<Bytes>, b: seq<Bytes>) returns (x: Bytes, y: Bytes)
    requires a != [] && b != [] && AllDigests(a) && AllDigests(b)
    requires Depth(|a|) == Depth(|b|) && Root(h, a) == Root(h, b)
    ensures multiset(Padded(a)) == multiset(Padded(b)) || TreesCollide(h, a, b, x, y)
  {
    x, y := [], [];
    if c :| multiset(Padded(a))[c] != multiset(Padded(b))[c] {
      var d := Depth(|a|);
      FirstUnderNext(d, 0);
      CountIsOfSegment(a, d, 0, c);
      CountIsOfSegment(b, d, 0, c);
      x, y := NodeBindsLeaves(h, a, b, d, 0, 0, c);
    }
  }

  /** The root does not fix the number of leaves: a list that does not fill its tree, and the same list with its
  last leaf repeated, have one root. */
  lemma {:induction false} RepeatedLeafKeepsRoot(h: Hash, leaves: seq<Bytes>)
    requires leaves != [] && |leaves| < NextPow2(|leaves|)
    ensures Root(h, leaves + [leaves[|leaves| - 1]]) == Root(h, leaves)
  {
    var more := leaves + [leaves[|leaves| - 1]];
    var d := Depth(|leaves|);
    DepthStays(|leaves|);
    SameLeavesSameNode(h, leaves, more, d, 0);
  }

  lemma {:induction false} SameLeavesSameNode(h: Hash, a: seq<Bytes>, b: seq<Bytes>, k: nat, j: nat)
    requires a != [] && b != [] && forall i: nat :: LeafAt(a, i) == LeafAt(b, i)
    ensures Node(h, a, k, j) == Node(h, b, k, j)
  {
    if k > 0 {
      SameLeavesSameNode(h, a, b, k - 1, 2 * j);
      SameLeavesSameNode(h, a, b, k - 1, 2 * j + 1);
    }
  }
}
