/** The append-only tree of noema/audit/merkle_proof.py. Nodes inside the padding region are stored
as `None` and resolved against the current last leaf, so an append refreshes one root path only.
The class is proved to agree, node by node, with the static tree over the same leaves. */
module IncrementalMerkle {
  import opened Bytes
  import opened StaticMerkle

  type Level = seq<Option<Bytes>>

  /** The pad digest of level `k`: the full subtree of height `k` over copies of one leaf. */
  function PadHash(h: Hash, leaf: Bytes, k: nat): Bytes {
    if k == 0 then leaf else HashPair(h, PadHash(h, leaf, k - 1), PadHash(h, leaf, k - 1))
  }

  function PadHashes(h: Hash, leaf: Bytes, count: nat): (pads: seq<Bytes>)
    ensures |pads| == count
  {
    seq(count, (k: nat) => PadHash(h, leaf, k))
  }

  // ---------- the representation invariant ----------

  /** A stored level: exactly the nodes above some real leaf are present, and they are right. */
  ghost predicate LevelHolds(h: Hash, leaves: seq<Bytes>, k: nat, level: Level)
    requires leaves != []
  {
    && Shr(|leaves| - 1, k) < |level|
    && forall j :: 0 <= j < |level| ==>
         level[j] == if j <= Shr(|leaves| - 1, k) then Some(Node(h, leaves, k, j)) else None
  }

  /** A level waiting for the path of the newest leaf: only its node on that path may be stale. */
  ghost predicate LevelPending(h: Hash, leaves: seq<Bytes>, k: nat, level: Level)
    requires leaves != []
  {
    && Shr(|leaves| - 1, k) <= |level|
    && forall j :: 0 <= j < |level| && j != Shr(|leaves| - 1, k) ==>
         level[j] == if j < Shr(|leaves| - 1, k) then Some(Node(h, leaves, k, j)) else None
  }

  ghost predicate Represents(h: Hash, leaves: seq<Bytes>, levels: seq<Level>, pads: seq<Bytes>) {
    if leaves == [] then levels == [[]] && pads == [ZERO32]
    else
      && |levels| == Depth(|leaves|) + 1
      && pads == PadHashes(h, leaves[|leaves| - 1], |levels|)
      && forall k :: 0 <= k < |levels| ==> LevelHolds(h, leaves, k, levels[k])
  }

  /** Every node to the right of the last real leaf's ancestor is the pad digest of its level. */
  lemma {:induction false} PaddingNode(h: Hash, leaves: seq<Bytes>, k: nat, j: nat)
    requires leaves != [] && j > Shr(|leaves| - 1, k)
    ensures Node(h, leaves, k, j) == PadHash(h, leaves[|leaves| - 1], k)
  {
    if k > 0 {
      PaddingNode(h, leaves, k - 1, 2 * j);
      PaddingNode(h, leaves, k - 1, 2 * j + 1);
    }
  }

  /** Nodes to the left of the next leaf's ancestor do not depend on that leaf. */
  lemma {:induction false} SettledNode(h: Hash, leaves: seq<Bytes>, leaf: Bytes, k: nat, j: nat)
    requires leaves != [] && j < Shr(|leaves|, k)
    ensures Node(h, leaves + [leaf], k, j) == Node(h, leaves, k, j)
  {
    if k > 0 {
      SettledNode(h, leaves, leaf, k - 1, 2 * j);
      SettledNode(h, leaves, leaf, k - 1, 2 * j + 1);
    }
  }

  lemma {:induction false} AppendLeavesLevelPending(h: Hash, leaves: seq<Bytes>, leaf: Bytes, k: nat, level: Level)
    requires leaves != [] && LevelHolds(h, leaves, k, level)
    ensures LevelPending(h, leaves + [leaf], k, level)
  {
    ShrStep(|leaves| - 1, k);
    forall j | 0 <= j < Shr(|leaves|, k) && j < |level|
      ensures level[j] == Some(Node(h, leaves + [leaf], k, j))
    {
      SettledNode(h, leaves, leaf, k, j);
    }
  }

  method GrownTo(level: Level, idx: nat) returns (grown: Level)
    ensures |grown| == if |level| <= idx then idx + 1 else |level|
    ensures level <= grown && forall j :: |level| <= j < |grown| ==> grown[j] == None
  {
    grown := level;
    while |grown| <= idx
      invariant level <= grown && (|grown| == |level| || |grown| <= idx + 1)
      invariant forall j :: |level| <= j < |grown| ==> grown[j] == None
    {
      grown := grown + [None];
    }
  }

  lemma {:induction false} RefreshedLevel(h: Hash, leaves: seq<Bytes>, k: nat, level: Level, grown: Level)
    requires leaves != [] && LevelPending(h, leaves, k, level) && Shr(|leaves| - 1, k) < |grown|
    requires level <= grown && forall j :: |level| <= j < |grown| ==> grown[j] == None
    ensures var idx := Shr(|leaves| - 1, k);
            LevelHolds(h, leaves, k, grown[idx := Some(Node(h, leaves, k, idx))])
  {
  }

  lemma {:induction false} ShrStep(m: nat, k: nat)
    ensures Shr(m, k) <= Shr(m + 1, k) <= Shr(m, k) + 1
  {
    if k > 0 {
      ShrStep(m, k - 1);
    }
  }

  lemma {:induction false} ShrCeiling(a: nat, k: nat)
    ensures Shr(a + Pow2(k), k) == Shr(a, k) + 1
  {
    if k > 0 {
      ShrHead(a + Pow2(k), k - 1);
      ShrHead(a, k - 1);
      ShrCeiling(a / 2, k - 1);
      assert (a + 2 * Pow2(k - 1)) / 2 == a / 2 + Pow2(k - 1);
    }
  }

  /** Erasing the padding of a static level leaves a stored level. */
  lemma {:induction false} NullifiedLevel(h: Hash, leaves: seq<Bytes>, k: nat, level: Level, erased: Level)
    requires leaves != [] && k <= Depth(|leaves|) && |level| == |erased| == Pow2(Depth(|leaves|) - k)
    requires forall j :: 0 <= j < |level| ==> level[j] == Some(Node(h, leaves, k, j))
    requires forall j :: 0 <= j < |level| ==> erased[j] == if j < Shr(|leaves| + Pow2(k) - 1, k) then level[j] else None
    ensures LevelHolds(h, leaves, k, erased)
  {
    NextPow2IsLeast(|leaves|, 0);
    ShrCeiling(|leaves| - 1, k);
    ShrInRange(|leaves| - 1, Depth(|leaves|), k);
  }

  /** All nodes of a static tree, as stored nodes. */
  function Stored(built: seq<seq<Bytes>>): (levels: seq<Level>)
    ensures |levels| == |built| && forall k :: 0 <= k < |built| ==> |levels[k]| == |built[k]|
    ensures forall k, j :: 0 <= k < |built| && 0 <= j < |built[k]| ==> levels[k][j] == Some(built[k][j])
  {
    seq(|built|, k requires 0 <= k < |built| => seq(|built[k]|, j requires 0 <= j < |built[k]| => Some(built[k][j])))
  }

  lemma {:induction false} NullifiedLevels(h: Hash, leaves: seq<Bytes>, erased: seq<Level>)
    requires leaves != []
    requires var levels := Stored(StaticLevels(h, leaves));
             && |erased| == |levels| && (forall k :: 0 <= k < |levels| ==> |erased[k]| == |levels[k]|)
             && forall k, j :: 0 <= k < |levels| && 0 <= j < |levels[k]| ==>
                  erased[k][j] == if j < Shr(|leaves| + Pow2(k) - 1, k) then levels[k][j] else None
    ensures forall k :: 0 <= k < |erased| ==> LevelHolds(h, leaves, k, erased[k])
  {
    var levels := Stored(StaticLevels(h, leaves));
    forall k | 0 <= k < |erased| ensures LevelHolds(h, leaves, k, erased[k]) {
      assert StaticLevels(h, leaves)[k] == StaticLevel(h, leaves, k);
      NullifiedLevel(h, leaves, k, levels[k], erased[k]);
    }
  }

  /** One more leaf needs one more level exactly when the leaf count was a power of two. */
  lemma {:induction false} DepthGrowth(n: nat)
    requires n > 0
    ensures Depth(n) <= Depth(n + 1) <= Depth(n) + 1
    ensures Depth(n + 1) == Depth(n) + 1 <==> n == NextPow2(n)
    ensures Shr(n, Depth(n + 1)) == 0
    ensures Depth(n) == 0 || Shr(n - 1, Depth(n)) == 0
  {
    DepthStays(n);
    BitLengthStep(n - 1);
    ShrBitLength(n);
    ShrBitLength(n - 1);
  }

  /** With a new empty top level where the tree gets deeper, all levels wait for the path of the new leaf. */
  lemma {:induction false} AppendLeavesPending(h: Hash, leaves: seq<Bytes>, leaf: Bytes, levels: seq<Level>)
    requires leaves != [] && |levels| == Depth(|leaves|) + 1
    requires forall k :: 0 <= k < |levels| ==> LevelHolds(h, leaves, k, levels[k])
    ensures var deeper := |levels| < BitLength(NextPow2(|leaves| + 1));
            var grown := if deeper then levels + [[]] else levels;
            && |grown| == Depth(|leaves| + 1) + 1
            && forall k :: 0 <= k < |grown| ==> LevelPending(h, leaves + [leaf], k, grown[k])
  {
    var n := |leaves| + 1;
    DepthGrowth(|leaves|);
    BitLengthOfPow2(Depth(n));
    forall k | 0 <= k < |levels| ensures LevelPending(h, leaves + [leaf], k, levels[k]) {
      AppendLeavesLevelPending(h, leaves, leaf, k, levels[k]);
    }
  }

  lemma {:induction false} BitLengthStep(m: nat)
    ensures BitLength(m) <= BitLength(m + 1) <= BitLength(m) + 1
  {
    if m > 0 {
      BitLengthStep(m / 2);
      assert (m + 1) / 2 == m / 2 || (m + 1) / 2 == m / 2 + 1;
    }
  }

  // ---------- the tree ----------

  class IncrementalMerkleTree {
    const h: Hash
    var leaves: seq<Bytes>
    var levels: seq<Level>
    var padHashes: seq<Bytes>
    ghost var pairHashes: nat  // how many pair digests have been computed so far

    ghost predicate Valid()
      reads this
    {
      Represents(h, leaves, levels, padHashes)
    }

    constructor (h: Hash, initial: seq<Bytes>)
      ensures Valid() && this.h == h && leaves == initial
    {
      this.h := h;
      leaves := initial;
      padHashes := [];
      if initial != [] {
        var built := BuildLevels(h, initial);
        levels := Stored(built);
      } else {
        levels := [[]];
      }
      new;
      if initial != [] {
        NullifyPads(|initial|);
        NullifiedLevels(h, leaves, levels);
      }
      padHashes := ComputePadHashes();
    }

    method ComputePadHashes() returns (out: seq<Bytes>)
      requires |levels| > 0
      modifies this`pairHashes
      ensures out == PadHashes(h, if leaves == [] then ZERO32 else leaves[|leaves| - 1], |levels|)
      ensures pairHashes == old(pairHashes) + |levels| - 1
    {
      var leaf: Bytes := if leaves == [] then ZERO32 else leaves[|leaves| - 1];
      out := [leaf];
      var current := leaf;
      for i := 0 to |levels| - 1
        invariant current == PadHash(h, leaf, i)
        invariant out == PadHashes(h, leaf, i + 1)
        invariant pairHashes == old(pairHashes) + i
      {
        current := HashPair(h, current, current);
        pairHashes := pairHashes + 1;
        out := out + [current];
      }
    }

    method NullifyPads(n: nat)
      modifies this`levels
      ensures |levels| == old(|levels|)
      ensures forall k :: 0 <= k < |levels| ==> |levels[k]| == old(|levels[k]|)
      ensures forall k, j :: 0 <= k < |levels| && 0 <= j < |levels[k]| ==>
        levels[k][j] == if j < Shr(n + Pow2(k) - 1, k) then old(levels)[k][j] else None
    {
      for k := 0 to |levels|
        invariant |levels| == old(|levels|)
        invariant forall m :: 0 <= m < |levels| ==> |levels[m]| == old(|levels[m]|)
        invariant forall m :: k <= m < |levels| ==> levels[m] == old(levels)[m]
        invariant forall m, j :: 0 <= m < k && 0 <= j < |levels[m]| ==>
          levels[m][j] == if j < Shr(n + Pow2(m) - 1, m) then old(levels)[m][j] else None
      {
        var start := Shr(n + Pow2(k) - 1, k);
        var level := levels[k];
        if start < |level| {
          for j := start to |level|
            invariant |level| == |levels[k]|
            invariant forall i :: 0 <= i < |level| ==>
              level[i] == if start <= i < j then None else levels[k][i]
          {
            level := level[j := None];
          }
        }
        levels := levels[k := level];
      }
    }

    /** `_node`: a stored node, or the pad digest of its level. */
    function NodeAt(k: nat, j: nat): Bytes
      requires k < |levels| && k < |padHashes|
      reads this
    {
      if j < |levels[k]| && levels[k][j].Some? then levels[k][j].value else padHashes[k]
    }

    /** The stored tree and the static tree have the same nodes. */
    lemma {:induction false} NodeAtIsStatic(k: nat, j: nat)
      requires Valid() && leaves != [] && k < |levels|
      ensures NodeAt(k, j) == Node(h, leaves, k, j)
    {
      assert LevelHolds(h, leaves, k, levels[k]);
      if j > Shr(|leaves| - 1, k) {
        PaddingNode(h, leaves, k, j);
      }
    }

    lemma {:induction false} SiblingAt(k: nat, j: nat)
      requires Valid() && leaves != [] && k < |levels|
      ensures (if j % 2 == 0 then NodeAt(k, j + 1) else NodeAt(k, j - 1)) == Node(h, leaves, k, Sibling(j))
    {
      NodeAtIsStatic(k, Sibling(j));
    }

    method GetRoot() returns (root: Bytes)
      requires Valid()
      ensures root == Root(h, leaves)
    {
      if leaves == [] {
        return ZERO32;
      }
      NodeAtIsStatic(|levels| - 1, 0);
      return NodeAt(|levels| - 1, 0);
    }

    method GetDepth() returns (depth: nat)
      requires Valid()
      ensures depth == if leaves == [] then 0 else Depth(|leaves|)
    {
      return |levels| - 1;
    }

    method Append(leaf: Bytes)
      requires Valid()
      modifies this
      ensures Valid() && leaves == old(leaves) + [leaf]
      ensures pairHashes == old(pairHashes) + 2 * Depth(|leaves|)
    {
      assert leaves != [] ==> LevelHolds(h, leaves, 0, levels[0]);
      if levels == [[]] {
        levels := [[Some(leaf)]];
        leaves := leaves + [leaf];
        padHashes := ComputePadHashes();
        return;
      }
      StoreLeaf(leaf);
      padHashes := ComputePadHashes();
      RefreshPath(|leaves| - 1);
    }

    /** Take the leaf into the bottom level, adding a top level when the tree gets deeper. */
    method StoreLeaf(leaf: Bytes)
      requires Valid() && leaves != []
      modifies this`leaves, this`levels
      ensures leaves == old(leaves) + [leaf] && |levels| == Depth(|leaves|) + 1
      ensures LevelHolds(h, leaves, 0, levels[0])
      ensures forall k :: 1 <= k < |levels| ==> LevelPending(h, leaves, k, levels[k])
    {
      AppendLeavesPending(h, leaves, leaf, levels);
      leaves := leaves + [leaf];
      var padded := NextPow2(|leaves|);
      if |levels| < BitLength(padded) {
        levels := levels + [[]];
      }
      var level0 := GrownTo(levels[0], |leaves| - 1);
      RefreshedLevel(h, leaves, 0, levels[0], level0);
      level0 := level0[|leaves| - 1 := Some(leaf)];
      levels := levels[0 := level0];
    }

    method RefreshPath(start: nat)
      requires leaves != [] && start == |leaves| - 1
      requires |levels| == Depth(|leaves|) + 1
      requires padHashes == PadHashes(h, leaves[|leaves| - 1], |levels|)
      requires LevelHolds(h, leaves, 0, levels[0])
      requires forall k :: 1 <= k < |levels| ==> LevelPending(h, leaves, k, levels[k])
      modifies this`levels, this`pairHashes
      ensures Valid()
      ensures pairHashes == old(pairHashes) + |levels| - 1
    {
      var idx := start;
      for k := 1 to |levels|
        invariant |levels| == Depth(|leaves|) + 1
        invariant idx == Shr(start, k - 1)
        invariant forall m :: 0 <= m < k ==> LevelHolds(h, leaves, m, levels[m])
        invariant forall m :: k <= m < |levels| ==> LevelPending(h, leaves, m, levels[m])
        invariant pairHashes == old(pairHashes) + k - 1
      {
        idx := idx / 2;
        RefreshNode(k, idx);
      }
    }

    /** Recompute the node of level `k` on the path of the newest leaf. */
    method RefreshNode(k: nat, idx: nat)
      requires leaves != [] && 1 <= k < |levels| && idx == Shr(|leaves| - 1, k)
      requires padHashes == PadHashes(h, leaves[|leaves| - 1], |levels|)
      requires LevelHolds(h, leaves, k - 1, levels[k - 1]) && LevelPending(h, leaves, k, levels[k])
      modifies this`levels, this`pairHashes
      ensures |levels| == old(|levels|) && levels == old(levels)[k := levels[k]]
      ensures LevelHolds(h, leaves, k, levels[k])
      ensures pairHashes == old(pairHashes) + 1
    {
      var level := GrownTo(levels[k], idx);
      ResolvesParent(k, idx);
      RefreshedLevel(h, leaves, k, levels[k], level);
      var node := HashPair(h, NodeAt(k - 1, 2 * idx), NodeAt(k - 1, 2 * idx + 1));
      levels := levels[k := level[idx := Some(node)]];
      pairHashes := pairHashes + 1;
    }

    lemma {:induction false} ResolvesParent(k: nat, idx: nat)
      requires leaves != [] && 0 < k < |levels| && LevelHolds(h, leaves, k - 1, levels[k - 1])
      requires padHashes == PadHashes(h, leaves[|leaves| - 1], |levels|)
      ensures HashPair(h, NodeAt(k - 1, 2 * idx), NodeAt(k - 1, 2 * idx + 1)) == Node(h, leaves, k, idx)
    {
      ResolvesChild(k - 1, 2 * idx);
      ResolvesChild(k - 1, 2 * idx + 1);
    }

    lemma {:induction false} ResolvesChild(k: nat, j: nat)
      requires leaves != [] && k < |levels| && LevelHolds(h, leaves, k, levels[k])
      requires padHashes == PadHashes(h, leaves[|leaves| - 1], |levels|)
      ensures NodeAt(k, j) == Node(h, leaves, k, j)
    {
      if j > Shr(|leaves| - 1, k) {
        PaddingNode(h, leaves, k, j);
      }
    }

    /** `proof`: `None` stands for the IndexError. */
    method Proof(leafIndex: int) returns (r: Option<seq<(Bytes, bool)>>)
      requires Valid()
      ensures r == if 0 <= leafIndex < |leaves| then Some(Path(h, leaves, leafIndex)) else None
    {
      if !(0 <= leafIndex < |leaves|) {
        return None;
      }
      var path: seq<(Bytes, bool)> := [];
      var idx: nat := leafIndex;
      for k := 0 to |levels| - 1
        invariant |path| == k && idx == Shr(leafIndex, k)
        invariant forall m :: 0 <= m < k ==> path[m] == PathStep(h, leaves, leafIndex, m)
      {
        SiblingAt(k, idx);
        var sibling := if idx % 2 == 0 then NodeAt(k, idx + 1) else NodeAt(k, idx - 1);
        path := path + [(sibling, idx % 2 != 0)];
        idx := idx / 2;
      }
      assert path == Path(h, leaves, leafIndex);
      return Some(path);
    }

    method MakeInclusionProof(leafData: Bytes, leafIndex: int) returns (r: ProofResult)
      requires Valid()
      ensures !(0 <= leafIndex < |leaves|) ==> r == IndexOutOfRange
      ensures 0 <= leafIndex < |leaves| ==>
        r == Proved(InclusionProof(SafeHash(h, leafData), Path(h, leaves, leafIndex), Root(h, leaves), leafIndex))
    {
      if !(0 <= leafIndex < |leaves|) {
        return IndexOutOfRange;
      }
      var path := Proof(leafIndex);
      var root := GetRoot();
      return Proved(InclusionProof(SafeHash(h, leafData), path.value, root, leafIndex));
    }
  }
}
