/** The sorted-pair Merkle tree of validator/src/basedai_validator/merkle.py.

    A 32-byte digest is its big-endian value, so the byte-string comparisons of
    the source are comparisons of numbers.  keccak-256 is a parameter: nothing
    below assumes anything about it except where a hypothesis says so, and such
    a hypothesis only ever speaks of the finitely many inputs that the tree and
    the proof at hand really hash. */
module Merkle {
  import opened Sorting

  type Digest = nat

  datatype ScoreLeaf = ScoreLeaf(brain: nat, miner: nat, score: nat)

  /** `leaf` is the double hash of an encoded leaf; `pair(a, b)` is the hash of
      the 64 bytes `a` followed by `b`. */
  datatype Hashing = Hashing(leaf: ScoreLeaf -> Digest, pair: (Digest, Digest) -> Digest)

  datatype ProofResult = Proof(siblings: seq<Digest>) | TargetNotInSet

  // ----- the tree as a function of its bottom layer

  function SortedPair(a: Digest, b: Digest): (Digest, Digest) {
    if a <= b then (a, b) else (b, a)
  }

  function Node(h: Hashing, a: Digest, b: Digest): Digest {
    var p := SortedPair(a, b);
    h.pair(p.0, p.1)
  }

  /** An odd layer is completed with a copy of its last digest. */
  function Padded(layer: seq<Digest>): (r: seq<Digest>)
    ensures |r| % 2 == 0 && |layer| <= |r| <= |layer| + 1
    ensures forall i :: 0 <= i < |layer| ==> r[i] == layer[i]
    ensures forall x :: x in r <==> x in layer
  {
    if |layer| % 2 == 1 then layer + [layer[|layer| - 1]] else layer
  }

  function Parents(h: Hashing, layer: seq<Digest>): (r: seq<Digest>)
    ensures |r| == (|layer| + 1) / 2
  {
    var p := Padded(layer);
    seq(|p| / 2, i requires 0 <= i < |p| / 2 => Node(h, p[2 * i], p[2 * i + 1]))
  }

  function Root(h: Hashing, layer: seq<Digest>): Digest
    requires layer != []
    decreases |layer|
  {
    if |layer| == 1 then layer[0] else Root(h, Parents(h, layer))
  }

  /** The other position of its pair: the lowest bit flipped. */
  function Sibling(i: nat): nat {
    if i % 2 == 0 then i + 1 else i - 1
  }

  function Siblings(h: Hashing, layer: seq<Digest>, idx: nat): seq<Digest>
    requires idx < |layer|
    decreases |layer|
  {
    if |layer| == 1 then []
    else [Padded(layer)[Sibling(idx)]] + Siblings(h, Parents(h, layer), idx / 2)
  }

  /** The pair that OpenZeppelin's MerkleProof hashes: the lesser digest comes first. */
  function LesserFirst(a: Digest, b: Digest): (Digest, Digest) {
    if a < b then (a, b) else (b, a)
  }

  function HashPair(h: Hashing, p: (Digest, Digest)): Digest {
    h.pair(p.0, p.1)
  }

  /** What that verifier computes from a leaf hash and a proof; nothing in it is shared
      with the code that builds the tree. */
  function Fold(h: Hashing, x: Digest, proof: seq<Digest>): Digest {
    if proof == [] then x
    else HashPair(h, LesserFirst(Fold(h, x, proof[..|proof| - 1]), proof[|proof| - 1]))
  }

  function LeafHashes(h: Hashing, leaves: seq<ScoreLeaf>): (r: seq<Digest>)
    ensures |r| == |leaves|
  {
    seq<Digest>(|leaves|, i requires 0 <= i < |leaves| => h.leaf(leaves[i]))
  }

  function SortedHashes(h: Hashing, leaves: seq<ScoreLeaf>): (r: seq<Digest>)
    ensures |r| == |leaves|
  {
    SortRearranges(AtMost, LeafHashes(h, leaves));
    Sort(AtMost, LeafHashes(h, leaves))
  }

  /** The root the source publishes; the empty tree is 32 zero bytes. */
  function RootOf(h: Hashing, leaves: seq<ScoreLeaf>): Digest {
    if leaves == [] then 0 else Root(h, SortedHashes(h, leaves))
  }

  // ----- the two loops of the source

  method NextLayer(h: Hashing, layer: seq<Digest>) returns (next: seq<Digest>)
    requires |layer| % 2 == 0
    ensures next == Parents(h, layer)
  {
    next := [];
    var i := 0;
    while i < |layer|
      invariant 0 <= i <= |layer| && i % 2 == 0
      invariant next == Parents(h, layer)[..i / 2]
    {
      var a, b := layer[i], layer[i + 1];
      var digest := if a <= b then h.pair(a, b) else h.pair(b, a);
      assert digest == Parents(h, layer)[i / 2];
      next := next + [digest];
      i := i + 2;
    }
  }

  method BuildMerkleRoot(h: Hashing, leaves: seq<ScoreLeaf>) returns (root: Digest, hashed: seq<Digest>)
    ensures root == RootOf(h, leaves)
    ensures hashed == SortedHashes(h, leaves)
  {
    if leaves == [] {
      return 0, [];
    }
    hashed := Sort(AtMost, LeafHashes(h, leaves));
    var layer := hashed;
    while |layer| > 1
      invariant layer != []
      invariant Root(h, layer) == Root(h, hashed)
    {
      ghost var before := layer;
      if |layer| % 2 == 1 {
        layer := layer + [layer[|layer| - 1]];
      }
      assert layer == Padded(before) == Padded(layer);
      assert Parents(h, layer) == Parents(h, before);
      layer := NextLayer(h, layer);
    }
    root := layer[0];
  }

  method BuildProof(h: Hashing, leaves: seq<ScoreLeaf>, target: ScoreLeaf) returns (r: ProofResult)
    ensures r.TargetNotInSet? <==> h.leaf(target) !in LeafHashes(h, leaves)
    ensures r.Proof? ==> Fold(h, h.leaf(target), r.siblings) == RootOf(h, leaves)
    ensures r.Proof? ==> |r.siblings| == Halvings(|leaves|)
  {
    var targetHash := h.leaf(target);
    var hashed := Sort(AtMost, LeafHashes(h, leaves));
    SortRearranges(AtMost, LeafHashes(h, leaves));
    if targetHash !in hashed {
      return TargetNotInSet;
    }
    var idx: nat := 0;
    while hashed[idx] != targetHash
      invariant idx < |hashed| && targetHash in hashed[idx..]
      decreases |hashed| - idx
    {
      idx := idx + 1;
    }
    Completeness(h, hashed, idx);
    var proof := CollectSiblings(h, hashed, idx);
    return Proof(proof);
  }

  /** The second half of `build_proof`: the walk from position `start` to the root. */
  method CollectSiblings(h: Hashing, hashed: seq<Digest>, start: nat) returns (proof: seq<Digest>)
    requires start < |hashed|
    ensures proof == Siblings(h, hashed, start)
  {
    var layer, idx: nat := hashed, start;
    proof := [];
    while |layer| > 1
      invariant idx < |layer|
      invariant proof + Siblings(h, layer, idx) == Siblings(h, hashed, start)
      decreases |layer|
    {
      SiblingsStep(h, layer, idx);
      ghost var before := layer;
      if |layer| % 2 == 1 {
        layer := layer + [layer[|layer| - 1]];
      }
      assert layer == Padded(before);
      MoveOver(proof, layer[Sibling(idx)], Siblings(h, Parents(h, before), idx / 2));
      proof := proof + [layer[Sibling(idx)]];
      layer := NextLayer(h, layer);
      idx := idx / 2;
    }
  }

  lemma MoveOver<T>(a: seq<T>, x: T, b: seq<T>)
    ensures a + ([x] + b) == a + [x] + b
  {}

  lemma SiblingsStep(h: Hashing, layer: seq<Digest>, idx: nat)
    requires idx < |layer| && |layer| > 1
    ensures Sibling(idx) < |Padded(layer)|
    ensures idx / 2 < |Parents(h, layer)|
    ensures Parents(h, Padded(layer)) == Parents(h, layer)
    ensures Siblings(h, layer, idx)
         == [Padded(layer)[Sibling(idx)]] + Siblings(h, Parents(h, layer), idx / 2)
  {}

  // ----- completeness

  /** How often a layer of `n` digests is halved before one is left. */
  function Halvings(n: nat): nat {
    if n <= 1 then 0 else 1 + Halvings((n + 1) / 2)
  }

  function Pow2(k: nat): nat {
    if k == 0 then 1 else 2 * Pow2(k - 1)
  }

  /** `Halvings(n)` is the ceiling of the binary logarithm of `n`. */
  lemma {:induction false} HalvingsIsCeilLog2(n: nat, k: nat)
    requires n >= 1
    ensures Halvings(n) <= k <==> n <= Pow2(k)
  {
    if n >= 2 && k > 0 {
      HalvingsIsCeilLog2((n + 1) / 2, k - 1);
    } else if n == 1 {
      Pow2Positive(k);
    }
  }

  lemma Pow2Positive(k: nat)
    ensures Pow2(k) >= 1
  {}

  lemma {:induction false} FoldCons(h: Hashing, x: Digest, s: Digest, proof: seq<Digest>)
    ensures Fold(h, x, [s] + proof) == Fold(h, HashPair(h, LesserFirst(x, s)), proof)
  {
    var all := [s] + proof;
    if proof == [] {
      assert all[..0] == [];
      assert Fold(h, x, all[..0]) == x;
    } else {
      assert all[..|all| - 1] == [s] + proof[..|proof| - 1];
      FoldCons(h, x, s, proof[..|proof| - 1]);
    }
  }

  /** Builder and verifier hash a pair alike, in whichever order it comes. */
  lemma NodeIsHashPair(h: Hashing, a: Digest, b: Digest)
    ensures Node(h, a, b) == Node(h, b, a) == HashPair(h, LesserFirst(a, b))
  {}

  /** A digest and its sibling are hashed to the digest at half the position. */
  lemma ParentOf(h: Hashing, layer: seq<Digest>, idx: nat)
    requires idx < |layer| && |layer| > 1
    ensures Sibling(idx) < |Padded(layer)|
    ensures LesserFirst(layer[idx], Padded(layer)[Sibling(idx)]) in LayerInputs(layer)
    ensures HashPair(h, LesserFirst(layer[idx], Padded(layer)[Sibling(idx)])) == Parents(h, layer)[idx / 2]
  {
    var p, k := Padded(layer), idx / 2;
    assert idx == 2 * k || idx == 2 * k + 1;
    assert 2 * k + 1 < |p|;
    NodeIsHashPair(h, p[2 * k], p[2 * k + 1]);
    assert LesserFirst(p[2 * k], p[2 * k + 1]) in LayerInputs(layer);
  }

  /** Folding the siblings collected for position `idx` from the digest at that
      position gives the root. */
  lemma {:induction false} Completeness(h: Hashing, layer: seq<Digest>, idx: nat)
    requires idx < |layer|
    ensures Fold(h, layer[idx], Siblings(h, layer, idx)) == Root(h, layer)
    ensures |Siblings(h, layer, idx)| == Halvings(|layer|)
    decreases |layer|
  {
    if |layer| > 1 {
      SiblingsStep(h, layer, idx);
      ParentOf(h, layer, idx);
      var up := Parents(h, layer);
      FoldCons(h, layer[idx], Padded(layer)[Sibling(idx)], Siblings(h, up, idx / 2));
      Completeness(h, up, idx / 2);
    }
  }

  // ----- soundness

  /** The ordered pairs hashed while the tree over `layer` is built. */
  ghost function TreeInputs(h: Hashing, layer: seq<Digest>): set<(Digest, Digest)>
    requires layer != []
    decreases |layer|
  {
    if |layer| == 1 then {} else LayerInputs(layer) + TreeInputs(h, Parents(h, layer))
  }

  ghost function LayerInputs(layer: seq<Digest>): set<(Digest, Digest)> {
    var p := Padded(layer);
    set i | 0 <= i < |p| / 2 :: LesserFirst(p[2 * i], p[2 * i + 1])
  }

  /** The ordered pairs hashed while a proof is folded. */
  ghost function FoldInputs(h: Hashing, x: Digest, proof: seq<Digest>): set<(Digest, Digest)> {
    if proof == [] then {}
    else
      var shorter := proof[..|proof| - 1];
      FoldInputs(h, x, shorter) + {LesserFirst(Fold(h, x, shorter), proof[|proof| - 1])}
  }

  ghost predicate CollisionFree(h: Hashing, inputs: set<(Digest, Digest)>) {
    forall p, q :: p in inputs && q in inputs && h.pair(p.0, p.1) == h.pair(q.0, q.1) ==> p == q
  }

  /** No digest of `xs` is the hash of one of the pairs. */
  ghost predicate Apart(h: Hashing, xs: seq<Digest>, inputs: set<(Digest, Digest)>) {
    forall x, p :: x in xs && p in inputs ==> h.pair(p.0, p.1) != x
  }

  /** If a fold from `x` ends in the root of the tree over `layer`, then some
      intermediate value of that fold is a digest of `layer` itself. */
  lemma {:induction false} FoldVisitsLayer(h: Hashing, layer: seq<Digest>, x: Digest, proof: seq<Digest>)
      returns (k: nat)
    requires layer != []
    requires Fold(h, x, proof) == Root(h, layer)
    requires CollisionFree(h, TreeInputs(h, layer) + FoldInputs(h, x, proof))
    requires Apart(h, [x], TreeInputs(h, layer))
    ensures k <= |proof|
    ensures Fold(h, x, proof[..k]) in layer
    decreases |layer|
  {
    if |layer| == 1 {
      k := |proof|;
      assert proof[..k] == proof;
    } else {
      var up := Parents(h, layer);
      assert TreeInputs(h, up) <= TreeInputs(h, layer);
      var j := FoldVisitsLayer(h, up, x, proof);
      k := StepDown(h, layer, x, proof, j);
    }
  }

  lemma StepDown(h: Hashing, layer: seq<Digest>, x: Digest, proof: seq<Digest>, j: nat) returns (k: nat)
    requires |layer| > 1 && j <= |proof|
    requires Fold(h, x, proof[..j]) in Parents(h, layer)
    requires CollisionFree(h, TreeInputs(h, layer) + FoldInputs(h, x, proof))
    requires Apart(h, [x], TreeInputs(h, layer))
    ensures k <= |proof|
    ensures Fold(h, x, proof[..k]) in layer
  {
    var p, up := Padded(layer), Parents(h, layer);
    var i :| 0 <= i < |up| && up[i] == Fold(h, x, proof[..j]);
    var pair := LesserFirst(p[2 * i], p[2 * i + 1]);
    assert pair in LayerInputs(layer);
    NodeIsHashPair(h, p[2 * i], p[2 * i + 1]);
    assert up[i] == h.pair(pair.0, pair.1);
    assert x in [x] && Fold(h, x, proof[..0]) == x;
    assert j > 0;
    k := j - 1;
    var step := LastInput(h, x, proof, j);
    assert step == pair;
    assert p[2 * i] in p && p[2 * i + 1] in p;
  }

  /** The last pair hashed by the fold of the first `j` siblings. */
  lemma LastInput(h: Hashing, x: Digest, proof: seq<Digest>, j: nat) returns (step: (Digest, Digest))
    requires 0 < j <= |proof|
    ensures step == LesserFirst(Fold(h, x, proof[..j - 1]), proof[j - 1])
    ensures step in FoldInputs(h, x, proof)
    ensures h.pair(step.0, step.1) == Fold(h, x, proof[..j])
  {
    assert proof[..j][..j - 1] == proof[..j - 1] && proof[..j][j - 1] == proof[j - 1];
    step := LesserFirst(Fold(h, x, proof[..j - 1]), proof[j - 1]);
    FoldInputsPrefix(h, x, proof, j);
    assert step in FoldInputs(h, x, proof[..j]);
  }

  lemma {:induction false} FoldInputsPrefix(h: Hashing, x: Digest, proof: seq<Digest>, j: nat)
    requires j <= |proof|
    ensures FoldInputs(h, x, proof[..j]) <= FoldInputs(h, x, proof)
    decreases |proof|
  {
    if j == |proof| {
      assert proof[..j] == proof;
    } else {
      var shorter := proof[..|proof| - 1];
      assert shorter[..j] == proof[..j];
      FoldInputsPrefix(h, x, shorter, j);
    }
  }

  /** A proof of any length that folds from `x` to the root shows that `x` is a
      leaf, provided the inputs hashed on the way do not collide, `x` is not an
      inner node of the tree, and no leaf is a value the fold hashed. */
  lemma Soundness(h: Hashing, layer: seq<Digest>, x: Digest, proof: seq<Digest>)
    requires layer != []
    requires Fold(h, x, proof) == Root(h, layer)
    requires CollisionFree(h, TreeInputs(h, layer) + FoldInputs(h, x, proof))
    requires Apart(h, [x], TreeInputs(h, layer))
    requires Apart(h, layer, FoldInputs(h, x, proof))
    ensures x in layer
  {
    var k := FoldVisitsLayer(h, layer, x, proof);
    if k > 0 {
      var step := LastInput(h, x, proof, k);
      assert false;
    }
  }

  // ----- what a root says about its leaves

  /** An honest proof hashes nothing that building the tree does not hash. */
  lemma {:induction false} HonestFoldInputs(h: Hashing, layer: seq<Digest>, idx: nat)
    requires idx < |layer|
    ensures FoldInputs(h, layer[idx], Siblings(h, layer, idx)) <= TreeInputs(h, layer)
    decreases |layer|
  {
    if |layer| > 1 {
      SiblingsStep(h, layer, idx);
      ParentOf(h, layer, idx);
      var up := Parents(h, layer);
      FoldInputsCons(h, layer[idx], Padded(layer)[Sibling(idx)], Siblings(h, up, idx / 2));
      HonestFoldInputs(h, up, idx / 2);
    }
  }

  lemma {:induction false} FoldInputsCons(h: Hashing, x: Digest, s: Digest, proof: seq<Digest>)
    ensures FoldInputs(h, x, [s] + proof) == {LesserFirst(x, s)} + FoldInputs(h, HashPair(h, LesserFirst(x, s)), proof)
  {
    var all := [s] + proof;
    if proof == [] {
      assert all[..0] == [];
      assert FoldInputs(h, x, all[..0]) == {};
    } else {
      assert all[..|all| - 1] == [s] + proof[..|proof| - 1];
      FoldInputsCons(h, x, s, proof[..|proof| - 1]);
      FoldCons(h, x, s, proof[..|proof| - 1]);
    }
  }

  /** The inputs hashed for two trees do not collide and hit no leaf of either. */
  ghost predicate IdealFor(h: Hashing, a: seq<Digest>, b: seq<Digest>)
    requires a != [] && b != []
  {
    var inputs := TreeInputs(h, a) + TreeInputs(h, b);
    CollisionFree(h, inputs) && Apart(h, a, inputs) && Apart(h, b, inputs)
  }

  lemma EqualRootsSubset(h: Hashing, a: seq<Digest>, b: seq<Digest>, x: Digest)
    requires a != [] && b != [] && IdealFor(h, a, b)
    requires Root(h, a) == Root(h, b)
    requires x in a
    ensures x in b
  {
    var idx :| 0 <= idx < |a| && a[idx] == x;
    var proof := Siblings(h, a, idx);
    Completeness(h, a, idx);
    HonestFoldInputs(h, a, idx);
    assert forall y :: y in [x] ==> y in a;
    Soundness(h, b, x, proof);
  }

  /** Equal roots: equal sets of leaf hashes, whatever the two trees' sizes. */
  lemma RootBindsLeafSet(h: Hashing, a: seq<Digest>, b: seq<Digest>)
    requires a != [] && b != [] && IdealFor(h, a, b)
    requires Root(h, a) == Root(h, b)
    ensures forall x :: x in a <==> x in b
  {
    assert IdealFor(h, b, a) by {
      assert TreeInputs(h, b) + TreeInputs(h, a) == TreeInputs(h, a) + TreeInputs(h, b);
    }
    forall x
      ensures x in a <==> x in b
    {
      if x in a { EqualRootsSubset(h, a, b, x); }
      if x in b { EqualRootsSubset(h, b, a, x); }
    }
  }

  lemma AtMostIsTotalOrder()
    ensures TotalPreorder(AtMost)
    ensures forall x: nat, y: nat :: AtMost(x, y) && AtMost(y, x) ==> x == y
  {}

  /** The published root does not depend on the order of the leaves. */
  lemma RootIgnoresOrder(h: Hashing, a: seq<ScoreLeaf>, b: seq<ScoreLeaf>)
    requires multiset(LeafHashes(h, a)) == multiset(LeafHashes(h, b))
    ensures RootOf(h, a) == RootOf(h, b)
  {
    AtMostIsTotalOrder();
    SortByMultiset(AtMost, LeafHashes(h, a), LeafHashes(h, b));
    SameElements(LeafHashes(h, a), LeafHashes(h, b));
  }

  /** For leaf lists without repeated hashes the root is equal exactly when the
      lists are rearrangements of each other. */
  lemma RootIdentifiesDistinctLeaves(h: Hashing, a: seq<ScoreLeaf>, b: seq<ScoreLeaf>)
    requires a != [] && b != []
    requires Distinct(LeafHashes(h, a)) && Distinct(LeafHashes(h, b))
    requires IdealFor(h, SortedHashes(h, a), SortedHashes(h, b))
    ensures RootOf(h, a) == RootOf(h, b) <==> multiset(LeafHashes(h, a)) == multiset(LeafHashes(h, b))
  {
    var x, y := LeafHashes(h, a), LeafHashes(h, b);
    if RootOf(h, a) == RootOf(h, b) {
      RootBindsLeafSet(h, SortedHashes(h, a), SortedHashes(h, b));
      SortRearranges(AtMost, x);
      SortRearranges(AtMost, y);
      forall d
        ensures multiset(x)[d] == multiset(y)[d]
      {
        DistinctCount(x, d);
        DistinctCount(y, d);
        assert d in x <==> d in y;
      }
    }
    if multiset(x) == multiset(y) {
      RootIgnoresOrder(h, a, b);
    }
  }

  lemma SameHashSameLeaf(h: Hashing, a: seq<ScoreLeaf>, b: seq<ScoreLeaf>, leaf: ScoreLeaf)
    requires leaf in a
    requires forall d :: d in LeafHashes(h, a) ==> d in LeafHashes(h, b)
    requires forall x :: x in b && h.leaf(leaf) == h.leaf(x) ==> leaf == x
    ensures leaf in b
  {
    var i :| 0 <= i < |a| && a[i] == leaf;
    assert LeafHashes(h, a)[i] in LeafHashes(h, a);
    var j :| 0 <= j < |b| && LeafHashes(h, b)[j] == LeafHashes(h, a)[i];
    assert b[j] in b;
  }

  /** If the leaves' own hashes do not collide either, equal roots mean the same scores
      for the same miners. */
  lemma RootBindsScores(h: Hashing, a: seq<ScoreLeaf>, b: seq<ScoreLeaf>, leaf: ScoreLeaf)
    requires a != [] && b != []
    requires IdealFor(h, SortedHashes(h, a), SortedHashes(h, b))
    requires forall x :: x in a + b && h.leaf(leaf) == h.leaf(x) ==> leaf == x
    requires RootOf(h, a) == RootOf(h, b)
    ensures leaf in a <==> leaf in b
  {
    RootBindsLeafSet(h, SortedHashes(h, a), SortedHashes(h, b));
    SortRearranges(AtMost, LeafHashes(h, a));
    SortRearranges(AtMost, LeafHashes(h, b));
    assert forall x :: x in a || x in b ==> x in a + b;
    if leaf in a { SameHashSameLeaf(h, a, b, leaf); }
    if leaf in b { SameHashSameLeaf(h, b, a, leaf); }
  }

  /** Repetitions are not bound: a list of odd length has the root of the list
      with its largest leaf hash written twice. */
  lemma OddRootForgetsRepetition(h: Hashing, layer: seq<Digest>)
    requires |layer| % 2 == 1 && |layer| > 1
    ensures Root(h, layer + [layer[|layer| - 1]]) == Root(h, layer)
  {}

  // ----- small trees, written out

  /** The leaf hashes are those of the leaves, in ascending order. */
  lemma LeafHashesAscend(h: Hashing, leaves: seq<ScoreLeaf>)
    ensures |SortedHashes(h, leaves)| == |leaves|
    ensures forall i, j :: 0 <= i < j < |leaves| ==> SortedHashes(h, leaves)[i] <= SortedHashes(h, leaves)[j]
    ensures multiset(SortedHashes(h, leaves))
         == multiset(seq(|leaves|, i requires 0 <= i < |leaves| => h.leaf(leaves[i])))
  {
    AtMostIsTotalOrder();
    SortOrdered(AtMost, LeafHashes(h, leaves));
    SortRearranges(AtMost, LeafHashes(h, leaves));
    forall i, j | 0 <= i < j < |leaves|
      ensures SortedHashes(h, leaves)[i] <= SortedHashes(h, leaves)[j]
    {
      assert AtMost(SortedHashes(h, leaves)[i], SortedHashes(h, leaves)[j]);
    }
  }

  /** The published root of no leaf, of one, and of two, where the lesser hash goes first. */
  lemma SmallRoots(h: Hashing, a: ScoreLeaf, b: ScoreLeaf)
    requires h.leaf(a) <= h.leaf(b)
    ensures RootOf(h, []) == 0
    ensures RootOf(h, [a]) == h.leaf(a)
    ensures RootOf(h, [a, b]) == RootOf(h, [b, a]) == h.pair(h.leaf(a), h.leaf(b))
  {
    assert LeafHashes(h, [a]) == [h.leaf(a)] && LeafHashes(h, [a])[1..] == [];
    assert Sort(AtMost, []) == [] && Sort(AtMost, [h.leaf(a)]) == [h.leaf(a)];
    TwoHashes(h, a, b);
    RootOfPair(h, h.leaf(a), h.leaf(b));
  }

  lemma RootOfPair(h: Hashing, x: Digest, y: Digest)
    requires x <= y
    ensures Root(h, [x, y]) == h.pair(x, y)
  {
    assert Padded([x, y]) == [x, y];
    NodeIsHashPair(h, x, y);
    assert Parents(h, [x, y]) == [h.pair(x, y)];
  }

  lemma TwoHashes(h: Hashing, a: ScoreLeaf, b: ScoreLeaf)
    requires h.leaf(a) <= h.leaf(b)
    ensures SortedHashes(h, [a, b]) == SortedHashes(h, [b, a]) == [h.leaf(a), h.leaf(b)]
  {
    var x, y := h.leaf(a), h.leaf(b);
    assert LeafHashes(h, [a, b]) == [x, y] && LeafHashes(h, [b, a]) == [y, x];
    assert [x, y][1..] == [y] && [y, x][1..] == [x] && [x][1..] == [] && [y][1..] == [];
    assert Sort(AtMost, [y]) == [y] && Sort(AtMost, [x]) == [x];
  }
}
