/** The Merkle tree of noema/audit/merkle.py: pairs are hashed in order, an odd last node is promoted
unhashed. Its levels, its inclusion proofs, and how its root binds its leaves. */
module PromotionTree {
  import opened Bytes

  // ---------- the odd-promotion tree ----------

  /** Node `i` of the next level up; an odd last node is promoted unhashed. */
  function ParentAt(h: Hash, level: seq<Bytes>, i: nat): Bytes
    requires 2 * i < |level|
  {
    if 2 * i + 1 < |level| then h(level[2 * i] + level[2 * i + 1]) else level[2 * i]
  }

  function Parents(h: Hash, level: seq<Bytes>): (up: seq<Bytes>)
    ensures |up| == (|level| + 1) / 2
  {
    seq((|level| + 1) / 2, i requires 0 <= i < (|level| + 1) / 2 => ParentAt(h, level, i))
  }

  method BuildParents(h: Hash, level: seq<Bytes>) returns (next: seq<Bytes>)
    ensures next == Parents(h, level)
  {
    next := [];
    var i := 0;
    while i < |level|
      invariant 0 <= i <= |level| + 1 && i % 2 == 0 && |next| == i / 2
      invariant forall j :: 0 <= j < |next| ==> next[j] == ParentAt(h, level, j)
    {
      assert i == 2 * |next|;
      if i + 1 < |level| {
        next := next + [h(level[i] + level[i + 1])];
      } else {
        next := next + [level[i]];
      }
      i := i + 2;
    }
  }

  function Levels(h: Hash, level: seq<Bytes>): (levels: seq<seq<Bytes>>)
    ensures |levels| > 0 && levels[0] == level
    decreases |level|
  {
    if |level| <= 1 then [level] else [level] + Levels(h, Parents(h, level))
  }

  function MerkleRoot(h: Hash, level: seq<Bytes>): Bytes
    requires level != []
    decreases |level|
  {
    if |level| == 1 then level[0] else MerkleRoot(h, Parents(h, level))
  }

  lemma {:induction false} NextLevel(h: Hash, levels: seq<seq<Bytes>>, k: nat)
    requires k + 1 < |levels| && levels[k..] == Levels(h, levels[k])
    ensures |levels[k]| > 1 && levels[k + 1] == Parents(h, levels[k]) && levels[k + 1..] == Levels(h, levels[k + 1])
  {
    assert levels[k + 1..] == levels[k..][1..];
    assert levels[k + 1] == levels[k + 1..][0];
  }

  lemma {:induction false} TopOfLevels(h: Hash, level: seq<Bytes>)
    requires level != []
    ensures var top := Levels(h, level)[|Levels(h, level)| - 1]; |top| == 1 && top[0] == MerkleRoot(h, level)
    decreases |level|
  {
    if |level| > 1 {
      TopOfLevels(h, Parents(h, level));
    }
  }

  /** Left before right, and the odd third node is promoted. */
  lemma {:induction false} RootOfThree(h: Hash, a: Bytes, b: Bytes, c: Bytes)
    ensures MerkleRoot(h, [a]) == a && MerkleRoot(h, [a, b]) == h(a + b) && MerkleRoot(h, [a, b, c]) == h(h(a + b) + c)
  {
    assert Parents(h, [a, b]) == [h(a + b)];
    assert Parents(h, [a, b, c]) == [h(a + b), c];
    assert Parents(h, [h(a + b), c]) == [h(h(a + b) + c)];
    assert MerkleRoot(h, [h(h(a + b) + c)]) == h(h(a + b) + c);
    assert MerkleRoot(h, [a, b, c]) == MerkleRoot(h, [h(a + b), c]) == MerkleRoot(h, [h(h(a + b) + c)]);
  }

  // ---------- inclusion proofs ----------

  datatype MerkleProof = MerkleProof(blockIndex: int, blockHash: Bytes, siblings: seq<(Bytes, bool)>)

  /** The sibling of node `idx` in a level; a promoted node has none. */
  function SiblingOf(level: seq<Bytes>, idx: nat): seq<(Bytes, bool)>
    requires idx < |level|
  {
    if idx % 2 == 1 then [(level[idx - 1], true)]
    else if idx + 1 < |level| then [(level[idx + 1], false)]
    else []
  }

  function Siblings(h: Hash, level: seq<Bytes>, idx: nat): seq<(Bytes, bool)>
    requires idx < |level|
    decreases |level|
  {
    if |level| == 1 then [] else SiblingOf(level, idx) + Siblings(h, Parents(h, level), idx / 2)
  }

  /** The string hashed for one step of a proof. */
  function StepInput(current: Bytes, step: (Bytes, bool)): Bytes {
    if step.1 then step.0 + current else current + step.0
  }

  function ClimbStep(h: Hash, current: Bytes, step: (Bytes, bool)): Bytes {
    h(StepInput(current, step))
  }

  function Climb(h: Hash, current: Bytes, siblings: seq<(Bytes, bool)>): Bytes
    decreases |siblings|
  {
    if siblings == [] then current else Climb(h, ClimbStep(h, current, siblings[0]), siblings[1..])
  }

  lemma {:induction false} ClimbConcat(h: Hash, current: Bytes, p: seq<(Bytes, bool)>, q: seq<(Bytes, bool)>)
    ensures Climb(h, current, p + q) == Climb(h, Climb(h, current, p), q)
    decreases |p|
  {
    if p == [] {
      assert p + q == q;
    } else {
      assert (p + q)[1..] == p[1..] + q;
      ClimbConcat(h, ClimbStep(h, current, p[0]), p[1..], q);
    }
  }

  lemma {:induction false} SiblingReachesParent(h: Hash, level: seq<Bytes>, idx: nat)
    requires idx < |level|
    ensures Climb(h, level[idx], SiblingOf(level, idx)) == ParentAt(h, level, idx / 2)
  {
    var step := SiblingOf(level, idx);
    assert idx % 2 == 1 ==> idx == 2 * (idx / 2) + 1;
    assert idx % 2 == 0 ==> idx == 2 * (idx / 2);
    if step != [] {
      assert step[1..] == [];
      assert Climb(h, level[idx], step) == ClimbStep(h, level[idx], step[0]);
    }
  }

  /** Completeness, through every level, including those where a node is promoted. */
  lemma {:induction false} SiblingsClimbToRoot(h: Hash, level: seq<Bytes>, idx: nat)
    requires idx < |level|
    ensures Climb(h, level[idx], Siblings(h, level, idx)) == MerkleRoot(h, level)
    decreases |level|
  {
    if |level| > 1 {
      var up := Parents(h, level);
      SiblingReachesParent(h, level, idx);
      ClimbConcat(h, level[idx], SiblingOf(level, idx), Siblings(h, up, idx / 2));
      SiblingsClimbToRoot(h, up, idx / 2);
    }
  }

  // ---------- the strings that are hashed ----------

  function PairAt(level: seq<Bytes>, i: nat): Bytes
    requires 2 * i + 1 < |level|
  {
    level[2 * i] + level[2 * i + 1]
  }

  /** A string hashed for the next level up. */
  ghost predicate IsPair(level: seq<Bytes>, x: Bytes) {
    exists i :: 0 <= i && 2 * i + 1 < |level| && x == PairAt(level, i)
  }

  /** A string hashed to build the levels above a level. */
  ghost predicate HashedInLevels(h: Hash, level: seq<Bytes>, x: Bytes)
    decreases |level|
  {
    |level| > 1 && (IsPair(level, x) || HashedInLevels(h, Parents(h, level), x))
  }

  function Digests(h: Hash, texts: seq<Bytes>): (r: seq<Bytes>)
    ensures |r| == |texts|
  {
    seq(|texts|, i requires 0 <= i < |texts| => h(texts[i]))
  }

  /** A string hashed to compute the Merkle root over some texts: one of them, or a pair of digests. */
  ghost predicate HashedForRoot(h: Hash, texts: seq<Bytes>, x: Bytes) {
    x in texts || HashedInLevels(h, Digests(h, texts), x)
  }

  /** A string hashed to climb. */
  ghost predicate HashedOnPath(h: Hash, leaf: Bytes, siblings: seq<(Bytes, bool)>, x: Bytes)
    decreases |siblings|
  {
    siblings != [] &&
    var n := |siblings| - 1;
    (x == StepInput(Climb(h, leaf, siblings[..n]), siblings[n]) || HashedOnPath(h, leaf, siblings[..n], x))
  }

  /** A string hashed to check the proof of a text: the text, or one of its steps. */
  ghost predicate HashedForProof(h: Hash, text: Bytes, siblings: seq<(Bytes, bool)>, x: Bytes) {
    x == text || HashedOnPath(h, h(text), siblings, x)
  }

  // ---------- the levels are a tree ----------

  datatype Tree = Leaf(text: Bytes) | Fork(left: Tree, right: Tree)

  function TreeDigest(h: Hash, t: Tree): Digest {
    match t
    case Leaf(text) => h(text)
    case Fork(l, r) => h(TreeDigest(h, l) + TreeDigest(h, r))
  }

  /** The string hashed for an inner node. */
  function ForkInput(h: Hash, l: Tree, r: Tree): Bytes {
    TreeDigest(h, l) + TreeDigest(h, r)
  }

  function Fringe(t: Tree): seq<Bytes> {
    match t
    case Leaf(text) => [text]
    case Fork(l, r) => Fringe(l) + Fringe(r)
  }

  function PairUp(forest: seq<Tree>): (up: seq<Tree>)
    ensures |up| == (|forest| + 1) / 2
  {
    seq((|forest| + 1) / 2, i requires 0 <= i < (|forest| + 1) / 2 =>
      if 2 * i + 1 < |forest| then Fork(forest[2 * i], forest[2 * i + 1]) else forest[2 * i])
  }

  /** The tree that repeated pairing with promotion builds. */
  function Shape(forest: seq<Tree>): Tree
    requires forest != []
    decreases |forest|
  {
    if |forest| == 1 then forest[0] else Shape(PairUp(forest))
  }

  function ForestFringe(forest: seq<Tree>): seq<Bytes> {
    if forest == [] then [] else Fringe(forest[0]) + ForestFringe(forest[1..])
  }

  function ForestDigests(h: Hash, forest: seq<Tree>): (r: seq<Bytes>)
    ensures |r| == |forest|
  {
    seq(|forest|, i requires 0 <= i < |forest| => TreeDigest(h, forest[i]))
  }

  function AsLeaves(texts: seq<Bytes>): (forest: seq<Tree>)
    ensures |forest| == |texts|
  {
    seq(|texts|, i requires 0 <= i < |texts| => Leaf(texts[i]))
  }

  lemma {:induction false} PairingKeepsFringe(forest: seq<Tree>)
    ensures ForestFringe(PairUp(forest)) == ForestFringe(forest)
    decreases |forest|
  {
    var up := PairUp(forest);
    if |forest| == 1 {
      assert up == forest;
    } else if |forest| >= 2 {
      var rest := forest[2..];
      assert up[1..] == PairUp(rest) by {
        forall i | 0 <= i < |PairUp(rest)| ensures up[1..][i] == PairUp(rest)[i] {
          assert up[1 + i] == if 2 * (1 + i) + 1 < |forest| then Fork(forest[2 * (1 + i)], forest[2 * (1 + i) + 1]) else forest[2 * (1 + i)];
        }
      }
      PairingKeepsFringe(rest);
      assert forest[1..][1..] == rest;
    }
  }

  lemma {:induction false} ShapeIsTheTree(h: Hash, forest: seq<Tree>)
    requires forest != []
    ensures TreeDigest(h, Shape(forest)) == MerkleRoot(h, ForestDigests(h, forest))
    ensures Fringe(Shape(forest)) == ForestFringe(forest)
    decreases |forest|
  {
    if |forest| == 1 {
      assert ForestFringe(forest) == Fringe(forest[0]) + [];
    } else {
      var up := PairUp(forest);
      PairedDigests(h, forest);
      ShapeIsTheTree(h, up);
      PairingKeepsFringe(forest);
    }
  }

  lemma {:induction false} PairedDigests(h: Hash, forest: seq<Tree>)
    ensures ForestDigests(h, PairUp(forest)) == Parents(h, ForestDigests(h, forest))
  {
    var level := ForestDigests(h, forest);
    forall i | 0 <= i < |PairUp(forest)| ensures TreeDigest(h, PairUp(forest)[i]) == ParentAt(h, level, i) {
      assert level[2 * i] == TreeDigest(h, forest[2 * i]);
      assert 2 * i + 1 < |forest| ==> level[2 * i + 1] == TreeDigest(h, forest[2 * i + 1]);
    }
  }

  lemma {:induction false} FringeOfLeaves(texts: seq<Bytes>)
    ensures ForestFringe(AsLeaves(texts)) == texts
  {
    if texts != [] {
      assert AsLeaves(texts)[1..] == AsLeaves(texts[1..]);
      FringeOfLeaves(texts[1..]);
    }
  }

  /** Every text is longer than the 64 bytes hashed for an inner node. */
  ghost predicate FringeIsLong(t: Tree) {
    match t
    case Leaf(text) => |text| > 64
    case Fork(l, r) => FringeIsLong(l) && FringeIsLong(r)
  }

  lemma {:induction false} ShapeIsLong(forest: seq<Tree>)
    requires forest != [] && forall i :: 0 <= i < |forest| ==> FringeIsLong(forest[i])
    ensures FringeIsLong(Shape(forest))
    decreases |forest|
  {
    if |forest| > 1 {
      ShapeIsLong(PairUp(forest));
    }
  }

  ghost predicate AllLong(texts: seq<Bytes>) {
    forall i :: 0 <= i < |texts| ==> |texts[i]| > 64
  }

  lemma {:induction false} TextsAreTheTree(h: Hash, texts: seq<Bytes>)
    requires texts != []
    ensures var t := Shape(AsLeaves(texts)); TreeDigest(h, t) == MerkleRoot(h, Digests(h, texts)) && Fringe(t) == texts
    ensures ForestDigests(h, AsLeaves(texts)) == Digests(h, texts)
    ensures AllLong(texts) ==> FringeIsLong(Shape(AsLeaves(texts)))
  {
    var forest := AsLeaves(texts);
    ShapeIsTheTree(h, forest);
    assert ForestDigests(h, forest) == Digests(h, texts);
    FringeOfLeaves(texts);
    if AllLong(texts) {
      ShapeIsLong(forest);
    }
  }

  /** A string hashed to compute the digest of a tree. */
  ghost predicate HashedInTree(h: Hash, t: Tree, x: Bytes) {
    match t
    case Leaf(text) => x == text
    case Fork(l, r) => x == ForkInput(h, l, r) || HashedInTree(h, l, x) || HashedInTree(h, r, x)
  }

  ghost predicate HashedInForest(h: Hash, forest: seq<Tree>, x: Bytes) {
    exists i :: 0 <= i < |forest| && HashedInTree(h, forest[i], x)
  }

  lemma {:induction false} HashedInPairs(h: Hash, forest: seq<Tree>, x: Bytes)
    requires HashedInForest(h, PairUp(forest), x)
    ensures HashedInForest(h, forest, x) || IsPair(ForestDigests(h, forest), x)
  {
    var i :| 0 <= i < |PairUp(forest)| && HashedInTree(h, PairUp(forest)[i], x);
    if 2 * i + 1 < |forest| {
      var l, r := forest[2 * i], forest[2 * i + 1];
      assert PairUp(forest)[i] == Fork(l, r);
      assert x == ForkInput(h, l, r) ==> x == PairAt(ForestDigests(h, forest), i);
    } else {
      assert PairUp(forest)[i] == forest[2 * i];
    }
  }

  /** What the tree hashes, the levels hash. */
  lemma {:induction false} HashedInShape(h: Hash, forest: seq<Tree>, x: Bytes)
    requires forest != [] && HashedInTree(h, Shape(forest), x)
    ensures HashedInForest(h, forest, x) || HashedInLevels(h, ForestDigests(h, forest), x)
    decreases |forest|
  {
    if |forest| > 1 {
      HashedInShape(h, PairUp(forest), x);
      PairedDigests(h, forest);
      if HashedInForest(h, PairUp(forest), x) {
        HashedInPairs(h, forest, x);
      }
    } else {
      assert forest[0] == Shape(forest);
    }
  }

  lemma {:induction false} HashedInTreeIsForRoot(h: Hash, texts: seq<Bytes>, x: Bytes)
    requires texts != [] && HashedInTree(h, Shape(AsLeaves(texts)), x)
    ensures HashedForRoot(h, texts, x)
  {
    TextsAreTheTree(h, texts);
    HashedInShape(h, AsLeaves(texts), x);
  }

  // ---------- the root binds the texts ----------

  /** Two different strings with one digest, one hashed for each tree. */
  ghost predicate TreesCollide(h: Hash, s: Tree, t: Tree, x: Bytes, y: Bytes) {
    HashedInTree(h, s, x) && HashedInTree(h, t, y) && Collision(h, x, y)
  }

  /** A leaf can never stand where an inner node is: the tree's digest pins its whole shape and its texts. */
  lemma {:induction false} TreeDigestBinds(h: Hash, s: Tree, t: Tree) returns (x: Bytes, y: Bytes)
    requires FringeIsLong(s) && FringeIsLong(t) && TreeDigest(h, s) == TreeDigest(h, t)
    ensures s == t || TreesCollide(h, s, t, x, y)
  {
    match (s, t)
    case (Leaf(e), Leaf(e')) =>
      x, y := e, e';
    case (Leaf(e), Fork(l, r)) =>
      x, y := e, ForkInput(h, l, r);
    case (Fork(l, r), Leaf(e)) =>
      x, y := ForkInput(h, l, r), e;
    case (Fork(l, r), Fork(l', r')) =>
      x, y := ForkInput(h, l, r), ForkInput(h, l', r');
      if x == y {
        assert TreeDigest(h, l) == x[..32] == y[..32] == TreeDigest(h, l');
        assert TreeDigest(h, r) == x[32..] == y[32..] == TreeDigest(h, r');
        x, y := TreeDigestBinds(h, l, l');
        if l == l' {
          x, y := TreeDigestBinds(h, r, r');
        }
      }
  }

  /** Two different strings with one digest, one hashed to compute each root. */
  ghost predicate RootsCollide(h: Hash, a: seq<Bytes>, b: seq<Bytes>, x: Bytes, y: Bytes) {
    HashedForRoot(h, a, x) && HashedForRoot(h, b, y) && Collision(h, x, y)
  }

  /** The root over long texts binds them, and their number, unless strings hashed for the two roots collide. */
  lemma {:induction false} RootBindsTexts(h: Hash, a: seq<Bytes>, b: seq<Bytes>) returns (x: Bytes, y: Bytes)
    requires a != [] && b != [] && AllLong(a) && AllLong(b)
    requires MerkleRoot(h, Digests(h, a)) == MerkleRoot(h, Digests(h, b))
    ensures a == b || RootsCollide(h, a, b, x, y)
  {
    var s, t := Shape(AsLeaves(a)), Shape(AsLeaves(b));
    TextsAreTheTree(h, a);
    TextsAreTheTree(h, b);
    x, y := TreeDigestBinds(h, s, t);
    if TreesCollide(h, s, t, x, y) {
      HashedInTreeIsForRoot(h, a, x);
      HashedInTreeIsForRoot(h, b, y);
    }
  }

  /** Two different strings with one digest, hashed to build the levels above two levels. */
  ghost predicate LevelsCollide(h: Hash, a: seq<Bytes>, b: seq<Bytes>, x: Bytes, y: Bytes) {
    HashedInLevels(h, a, x) && HashedInLevels(h, b, y) && Collision(h, x, y)
  }

  lemma {:induction false} ParentBinds(h: Hash, a: seq<Bytes>, b: seq<Bytes>, i: nat) returns (x: Bytes, y: Bytes)
    requires i < |a| == |b| && forall k :: 0 <= k < |a| ==> |a[k]| == |b[k]| == 32
    requires ParentAt(h, a, i / 2) == ParentAt(h, b, i / 2) && a[i] != b[i]
    ensures IsPair(a, x) && IsPair(b, y) && Collision(h, x, y)
  {
    var j := i / 2;
    assert i == 2 * j || i == 2 * j + 1;
    assert 2 * j + 1 < |a|;
    x, y := PairAt(a, j), PairAt(b, j);
    assert a[2 * j] == x[..32] && a[2 * j + 1] == x[32..];
    assert b[2 * j] == y[..32] && b[2 * j + 1] == y[32..];
  }

  /** For any digests, whatever they are of, root and number together bind the list. */
  lemma {:induction false} RootAndHeightBindHashes(h: Hash, a: seq<Bytes>, b: seq<Bytes>) returns (x: Bytes, y: Bytes)
    requires a != [] && |a| == |b|
    requires forall i :: 0 <= i < |a| ==> |a[i]| == |b[i]| == 32
    requires MerkleRoot(h, a) == MerkleRoot(h, b)
    ensures a == b || LevelsCollide(h, a, b, x, y)
    decreases |a|
  {
    x, y := [], [];
    if |a| > 1 {
      x, y := RootAndHeightBindHashes(h, Parents(h, a), Parents(h, b));
      if a != b && !LevelsCollide(h, Parents(h, a), Parents(h, b), x, y) {
        var i :| 0 <= i < |a| && a[i] != b[i];
        assert Parents(h, a)[i / 2] == ParentAt(h, a, i / 2) && Parents(h, b)[i / 2] == ParentAt(h, b, i / 2);
        x, y := ParentBinds(h, a, b, i);
      }
    }
  }

  // ---------- accepted proofs are the generated ones ----------

  /** The siblings on the way from leaf `i` of a tree to its root. */
  function PathTo(h: Hash, t: Tree, i: nat): seq<(Bytes, bool)>
    requires i < |Fringe(t)|
  {
    match t
    case Leaf(_) => []
    case Fork(l, r) =>
      if i < |Fringe(l)| then PathTo(h, l, i) + [(TreeDigest(h, r), false)]
      else PathTo(h, r, i - |Fringe(l)|) + [(TreeDigest(h, l), true)]
  }

  ghost predicate AreDigests(siblings: seq<(Bytes, bool)>) {
    forall k :: 0 <= k < |siblings| ==> |siblings[k].0| == 32
  }

  lemma {:induction false} ClimbIsDigest(h: Hash, leaf: Bytes, siblings: seq<(Bytes, bool)>)
    requires |leaf| == 32
    ensures |Climb(h, leaf, siblings)| == 32
    decreases |siblings|
  {
    if siblings != [] {
      ClimbIsDigest(h, ClimbStep(h, leaf, siblings[0]), siblings[1..]);
    }
  }

  lemma {:induction false} ClimbLast(h: Hash, leaf: Bytes, siblings: seq<(Bytes, bool)>)
    requires siblings != []
    ensures var n := |siblings| - 1;
            Climb(h, leaf, siblings) == ClimbStep(h, Climb(h, leaf, siblings[..n]), siblings[n])
  {
    var n := |siblings| - 1;
    var below := Climb(h, leaf, siblings[..n]);
    assert siblings == siblings[..n] + [siblings[n]];
    ClimbConcat(h, leaf, siblings[..n], [siblings[n]]);
    assert Climb(h, below, [siblings[n]]) == Climb(h, ClimbStep(h, below, siblings[n]), []);
  }

  /** The topmost step of an accepted proof enters one of the two subtrees, next to the other. */
  lemma {:induction false} TopStep(h: Hash, l: Tree, r: Tree, below: Bytes, step: (Bytes, bool))
    requires |below| == |step.0| == 32 && ClimbStep(h, below, step) == TreeDigest(h, Fork(l, r))
    ensures Collision(h, ForkInput(h, l, r), StepInput(below, step))
         || (step.1 && below == TreeDigest(h, r) && step.0 == TreeDigest(h, l))
         || (!step.1 && below == TreeDigest(h, l) && step.0 == TreeDigest(h, r))
  {
    var x, y := ForkInput(h, l, r), StepInput(below, step);
    if x == y {
      assert x[..32] == TreeDigest(h, l) && x[32..] == TreeDigest(h, r);
      assert y[..32] == (if step.1 then step.0 else below) && y[32..] == if step.1 then below else step.0;
    }
  }

  /** Two different strings with one digest, one hashed for the tree, the other to check the proof. */
  ghost predicate ProofCollides(h: Hash, t: Tree, text: Bytes, siblings: seq<(Bytes, bool)>, x: Bytes, y: Bytes) {
    HashedInTree(h, t, x) && HashedForProof(h, text, siblings, y) && Collision(h, x, y)
  }

  lemma {:induction false} ProofCollidesBelow(h: Hash, l: Tree, r: Tree, left: bool, text: Bytes, siblings: seq<(Bytes, bool)>, x: Bytes, y: Bytes)
    requires siblings != []
    requires ProofCollides(h, if left then l else r, text, siblings[..|siblings| - 1], x, y)
    ensures ProofCollides(h, Fork(l, r), text, siblings, x, y)
  {
  }

  /** Soundness: a long text whose digest climbs over digests to the root of a tree of long texts is one of them, and
  the proof is the path of that very leaf, unless a string hashed to check the proof collides with one of the tree. */
  lemma {:induction false} ClimbIsSound(h: Hash, t: Tree, text: Bytes, siblings: seq<(Bytes, bool)>)
    returns (i: nat, x: Bytes, y: Bytes)
    requires FringeIsLong(t) && |text| > 64 && AreDigests(siblings)
    requires Climb(h, h(text), siblings) == TreeDigest(h, t)
    ensures ProofCollides(h, t, text, siblings, x, y) || (i < |Fringe(t)| && Fringe(t)[i] == text && siblings == PathTo(h, t, i))
    decreases |siblings|
  {
    i, x, y := 0, [], [];
    if siblings == [] {
      x, y := if t.Leaf? then t.text else ForkInput(h, t.left, t.right), text;
    } else {
      var n := |siblings| - 1;
      var below, step := Climb(h, h(text), siblings[..n]), siblings[n];
      ClimbLast(h, h(text), siblings);
      ClimbIsDigest(h, h(text), siblings[..n]);
      match t
      case Leaf(e) =>
        x, y := e, StepInput(below, step);
      case Fork(l, r) =>
        TopStep(h, l, r, below, step);
        x, y := ForkInput(h, l, r), StepInput(below, step);
        if !Collision(h, x, y) {
          i, x, y := SoundBelow(h, l, r, text, siblings);
        }
    }
  }

  lemma {:induction false} SoundBelow(h: Hash, l: Tree, r: Tree, text: Bytes, siblings: seq<(Bytes, bool)>)
    returns (i: nat, x: Bytes, y: Bytes)
    requires FringeIsLong(l) && FringeIsLong(r) && |text| > 64 && AreDigests(siblings) && siblings != []
    requires var n := |siblings| - 1; var below := Climb(h, h(text), siblings[..n]);
             if siblings[n].1 then below == TreeDigest(h, r) && siblings[n].0 == TreeDigest(h, l)
             else below == TreeDigest(h, l) && siblings[n].0 == TreeDigest(h, r)
    ensures var t := Fork(l, r);
            ProofCollides(h, t, text, siblings, x, y) || (i < |Fringe(t)| && Fringe(t)[i] == text && siblings == PathTo(h, t, i))
    decreases |siblings|, 0
  {
    var n := |siblings| - 1;
    var rest, right := siblings[..n], siblings[n].1;
    assert siblings == rest + [siblings[n]];
    i, x, y := ClimbIsSound(h, if right then r else l, text, rest);
    if ProofCollides(h, if right then r else l, text, rest, x, y) {
      ProofCollidesBelow(h, l, r, !right, text, siblings, x, y);
    } else if right {
      i := |Fringe(l)| + i;
    }
  }

  /** The position in the fringe of a forest at which its tree `a` begins. */
  function Offset(forest: seq<Tree>, a: nat): nat
    requires a <= |forest|
  {
    |ForestFringe(forest[..a])|
  }

  lemma {:induction false} FringeOfAppend(forest: seq<Tree>, t: Tree)
    ensures ForestFringe(forest + [t]) == ForestFringe(forest) + Fringe(t)
    decreases |forest|
  {
    if forest == [] {
      assert forest + [t] == [t] && ForestFringe([t]) == Fringe(t) + ForestFringe([t][1..]);
    } else {
      assert (forest + [t])[1..] == forest[1..] + [t];
      FringeOfAppend(forest[1..], t);
    }
  }

  lemma {:induction false} OffsetNext(forest: seq<Tree>, a: nat)
    requires a < |forest|
    ensures Offset(forest, a + 1) == Offset(forest, a) + |Fringe(forest[a])|
  {
    assert forest[..a + 1] == forest[..a] + [forest[a]];
    FringeOfAppend(forest[..a], forest[a]);
  }

  /** Pairing moves no leaf. */
  lemma {:induction false} OffsetOfPair(forest: seq<Tree>, k: nat)
    requires 2 * k <= |forest|
    ensures Offset(PairUp(forest), k) == Offset(forest, 2 * k)
  {
    assert PairUp(forest)[..k] == PairUp(forest[..2 * k]);
    PairingKeepsFringe(forest[..2 * k]);
  }

  /** Position `i` of the fringe of a forest is leaf `b` of its tree `a`. */
  ghost predicate IsAt(forest: seq<Tree>, a: nat, b: nat, i: nat) {
    a < |forest| && b < |Fringe(forest[a])| && i == Offset(forest, a) + b
  }

  lemma {:induction false} PathThroughFork(h: Hash, l: Tree, r: Tree, b: nat)
    ensures b < |Fringe(l)| ==> PathTo(h, Fork(l, r), b) == PathTo(h, l, b) + [(TreeDigest(h, r), false)]
    ensures b < |Fringe(r)| ==> PathTo(h, Fork(l, r), |Fringe(l)| + b) == PathTo(h, r, b) + [(TreeDigest(h, l), true)]
  {
  }

  /** Where leaf `b` of tree `a` is in the pair that the tree goes into. */
  function InPair(forest: seq<Tree>, a: nat, b: nat): nat
    requires a < |forest|
  {
    if a % 2 == 1 then |Fringe(forest[a - 1])| + b else b
  }

  lemma {:induction false} PairPosition(forest: seq<Tree>, a: nat, b: nat, i: nat)
    requires IsAt(forest, a, b, i)
    ensures IsAt(PairUp(forest), a / 2, InPair(forest, a, b), i)
  {
    OffsetOfPair(forest, a / 2);
    if a % 2 == 1 {
      OffsetNext(forest, a - 1);
    }
  }

  /** One level up, a leaf is one sibling further from the root. */
  lemma {:induction false} PathThroughPair(h: Hash, forest: seq<Tree>, a: nat, b: nat)
    requires a < |forest| && b < |Fringe(forest[a])| && InPair(forest, a, b) < |Fringe(PairUp(forest)[a / 2])|
    ensures PathTo(h, PairUp(forest)[a / 2], InPair(forest, a, b)) == PathTo(h, forest[a], b) + SiblingOf(ForestDigests(h, forest), a)
  {
    var k := a / 2;
    var pair := PairUp(forest)[k];
    if a % 2 == 1 {
      assert a == 2 * k + 1 && pair == Fork(forest[a - 1], forest[a]);
      PathThroughFork(h, forest[a - 1], forest[a], b);
    } else if a + 1 < |forest| {
      assert a == 2 * k && pair == Fork(forest[a], forest[a + 1]);
      PathThroughFork(h, forest[a], forest[a + 1], b);
    } else {
      assert a == 2 * k && pair == forest[a];
    }
  }

  lemma {:induction false} SiblingsUp(h: Hash, level: seq<Bytes>, idx: nat, path: seq<(Bytes, bool)>)
    requires idx < |level| && |level| > 1
    ensures path + Siblings(h, level, idx) == path + SiblingOf(level, idx) + Siblings(h, Parents(h, level), idx / 2)
  {
    assert Siblings(h, level, idx) == SiblingOf(level, idx) + Siblings(h, Parents(h, level), idx / 2);
  }

  /** The path in the tree is the sibling list that the level construction gives. */
  lemma {:induction false} PathIsSiblings(h: Hash, forest: seq<Tree>, a: nat, b: nat, i: nat)
    requires IsAt(forest, a, b, i)
    ensures i < |Fringe(Shape(forest))|
    ensures PathTo(h, Shape(forest), i) == PathTo(h, forest[a], b) + Siblings(h, ForestDigests(h, forest), a)
    decreases |forest|
  {
    if |forest| > 1 {
      PairPosition(forest, a, b, i);
      PathThroughPair(h, forest, a, b);
      PathIsSiblings(h, PairUp(forest), a / 2, InPair(forest, a, b), i);
      PairedDigests(h, forest);
      SiblingsUp(h, ForestDigests(h, forest), a, PathTo(h, forest[a], b));
    }
  }

  lemma {:induction false} LeafPosition(texts: seq<Bytes>, i: nat)
    requires i < |texts|
    ensures IsAt(AsLeaves(texts), i, 0, i)
  {
    assert AsLeaves(texts)[..i] == AsLeaves(texts[..i]);
    FringeOfLeaves(texts[..i]);
  }

  /** Two different strings with one digest, one hashed to compute the root, the other to check the proof. */
  ghost predicate ProofOfTextCollides(h: Hash, texts: seq<Bytes>, text: Bytes, siblings: seq<(Bytes, bool)>, x: Bytes, y: Bytes) {
    HashedForRoot(h, texts, x) && HashedForProof(h, text, siblings, y) && Collision(h, x, y)
  }

  /** A long text whose digest climbs over digests to the root of long texts is one of them, and its siblings are those
  that a generated proof has, unless a string hashed to check the proof collides with one hashed for the root. */
  lemma {:induction false} AcceptedProofIsGenerated(h: Hash, texts: seq<Bytes>, text: Bytes, siblings: seq<(Bytes, bool)>)
    returns (i: nat, x: Bytes, y: Bytes)
    requires texts != [] && AllLong(texts) && |text| > 64 && AreDigests(siblings)
    requires Climb(h, h(text), siblings) == MerkleRoot(h, Digests(h, texts))
    ensures ProofOfTextCollides(h, texts, text, siblings, x, y)
         || (i < |texts| && texts[i] == text && siblings == Siblings(h, Digests(h, texts), i))
  {
    var forest := AsLeaves(texts);
    TextsAreTheTree(h, texts);
    i, x, y := ClimbIsSound(h, Shape(forest), text, siblings);
    if ProofCollides(h, Shape(forest), text, siblings, x, y) {
      HashedInTreeIsForRoot(h, texts, x);
    } else {
      LeafPosition(texts, i);
      PathIsSiblings(h, forest, i, 0, i);
    }
  }

  lemma {:induction false} SiblingsAreDigests(h: Hash, level: seq<Bytes>, idx: nat)
    requires idx < |level| && forall k :: 0 <= k < |level| ==> |level[k]| == 32
    ensures AreDigests(Siblings(h, level, idx))
    decreases |level|
  {
    if |level| > 1 {
      SiblingsAreDigests(h, Parents(h, level), idx / 2);
    }
  }

  // ---------- why both conditions are needed ----------

  /** Any node of the next level up climbs to the root as well: what is accepted need not be a leaf. */
  lemma {:induction false} InnerNodeReachesRoot(h: Hash, level: seq<Bytes>, idx: nat)
    requires |level| > 1 && idx < |Parents(h, level)|
    ensures Climb(h, ParentAt(h, level, idx), Siblings(h, Parents(h, level), idx)) == MerkleRoot(h, level)
  {
    SiblingsClimbToRoot(h, Parents(h, level), idx);
  }

  /** Over four leaves, the left inner node with its one sibling is accepted, and no generated proof has one sibling. */
  lemma {:induction false} InnerNodeIsNotGenerated(h: Hash, a: Bytes, b: Bytes, c: Bytes, d: Bytes)
    ensures Climb(h, h(a + b), [(h(c + d), false)]) == MerkleRoot(h, [a, b, c, d])
    ensures forall i :: 0 <= i < 4 ==> |Siblings(h, [a, b, c, d], i)| == 2
  {
    var level := [a, b, c, d];
    var up := Parents(h, level);
    assert up == [h(a + b), h(c + d)];
    InnerNodeReachesRoot(h, level, 0);
    var top := Parents(h, up);
    assert |top| == 1 && Siblings(h, top, 0) == [];
    assert Siblings(h, up, 0) == [(h(c + d), false)] + Siblings(h, top, 0);
    forall i | 0 <= i < 4 ensures |Siblings(h, level, i)| == 2 {
      assert Siblings(h, level, i) == SiblingOf(level, i) + Siblings(h, up, i / 2);
      assert Siblings(h, up, i / 2) == SiblingOf(up, i / 2) + Siblings(h, top, 0);
    }
  }
}
