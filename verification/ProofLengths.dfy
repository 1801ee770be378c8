/** What accepted proofs say when their paths are shorter than the tree is high, which the check does not notice. */
module ProofLengths {
  import opened ByteStrings
  import opened Options
  import opened Merkle
  import opened MerkleBinding

  /** The strings hashed into inner nodes of a state's tree. */
  ghost function NodeStrings(H: Hasher, s: State): set<ByteString> { NodeInputs(H, LeafLevel(H, Leaves(s))) }

  /** An accepted proof for the root of a state. */
  ghost predicate ProofFor(H: Hasher, s: State, p: Proof) {
    && Accepted(H, p) && p.root == StateRootOf(H, s)
    && CollisionFree(H, CheckInputs(H, p) + HashedFor(H, s))
  }

  /** One whose path is shorter than the tree is high. */
  ghost predicate ShortProof(H: Hasher, s: State, p: Proof) {
    ProofFor(H, s, p) && |p.path| < Height(|s|)
  }

  lemma ProofFolds(H: Hasher, s: State, p: Proof)
    requires ProofFor(H, s, p)
    ensures Fold(H, H(Leaf(p.key, p.value)), p.path) == Some(RootDigest(H, Leaves(s)))
    ensures |Leaves(s)| == |s|
  {
    KeysAreKeys(s);
    HexInjective(Fold(H, H(Leaf(p.key, p.value)), p.path).value, RootDigest(H, Leaves(s)));
  }

  // ----- short proofs -----

  /** A node at a positive height is the digest of a node string. */
  lemma LiftedNode(H: Hasher, level: seq<Digest>, k: nat, d: Digest)
    requires |level| > 0 && Distinct(level) && k < Height(|level|)
    requires CollisionFree(H, NodeInputs(H, level))
    requires d in Lift(H, level, k + 1)
    ensures exists x :: x in NodeInputs(H, level) && d == H(x)
  {
    LiftKeeps(H, level, k);
    var below := Lift(H, level, k);
    var i :| 0 <= i < |Parents(H, below)| && Parents(H, below)[i] == d;
    assert Pair(below, i) in Pairs(below);
  }

  /** A path shorter than the tree that folds to the top starts at the digest of a node string. */
  lemma ShortFoldStartsAtNode(H: Hasher, cur: Digest, path: seq<Step>, level: seq<Digest>)
    requires |level| > 0 && Distinct(level) && |path| < Height(|level|)
    requires Fold(H, cur, path) == Some(Top(H, level))
    requires CollisionFree(H, FoldInputs(H, cur, path) + NodeInputs(H, level))
    ensures exists x :: x in NodeInputs(H, level) && cur == H(x)
  {
    hide Fold, Top, Distinct, NodeInputs, FoldInputs, Height, Lift;
    var k := Height(|level|) - |path|;
    FewerInputs(H, NodeInputs(H, level), FoldInputs(H, cur, path) + NodeInputs(H, level));
    LiftKeeps(H, level, k);
    FewerInputs(H, FoldInputs(H, cur, path) + NodeInputs(H, Lift(H, level, k)),
                FoldInputs(H, cur, path) + NodeInputs(H, level));
    FoldIsSound(H, cur, path, Lift(H, level, k));
    LiftedNode(H, level, k - 1, cur);
  }

  lemma SameString(H: Hasher, x: ByteString, y: ByteString, a: set<ByteString>, b: set<ByteString>)
    requires x in a && y in b && H(x) == H(y) && CollisionFree(H, a + b)
    ensures x == y
  {}

  lemma {:induction false} NodeStringsAreWide(H: Hasher, level: seq<Digest>, x: ByteString)
    requires x in NodeInputs(H, level)
    ensures |x| == 64
    decreases |level|
  {
    if x !in Pairs(level) { NodeStringsAreWide(H, Parents(H, level), x); }
  }

  /** What a short proof claims is a node string of the tree, and so has its 64 bytes. */
  lemma ShortProofNamesNode(H: Hasher, s: State, p: Proof)
    requires NulFreeKeys(s) && ShortProof(H, s, p)
    ensures Leaf(p.key, p.value) in NodeStrings(H, s) && |Leaf(p.key, p.value)| == 64
  {
    ProofFolds(H, s, p);
    FewerInputs(H, HashedFor(H, s), CheckInputs(H, p) + HashedFor(H, s));
    LeavesDistinct(H, s);
    var leaf, level := Leaf(p.key, p.value), LeafLevel(H, Leaves(s));
    StateNodesAreHashed(H, s);
    assert NodeInputs(H, level) <= HashedFor(H, s);
    hide Accepted, Fold, Top, Distinct, NodeInputs, FoldInputs, Height, Leaf, HashedFor, NulFreeKeys, Leaves, LeafLevel;
    FewerInputs(H, FoldInputs(H, H(leaf), p.path) + NodeInputs(H, level), CheckInputs(H, p) + HashedFor(H, s));
    ShortFoldStartsAtNode(H, H(leaf), p.path, level);
    var x :| x in NodeInputs(H, level) && H(leaf) == H(x);
    SameString(H, leaf, x, CheckInputs(H, p), HashedFor(H, s));
    NodeStringsAreWide(H, level, x);
  }

  lemma StateNodesAreHashed(H: Hasher, s: State)
    ensures NodeStrings(H, s) <= HashedFor(H, s)
  {}

  /** Where in the tree a node string is hashed. */
  lemma {:induction false} NodeStringAt(H: Hasher, level: seq<Digest>, x: ByteString) returns (k: nat, i: nat)
    requires x in NodeInputs(H, level)
    ensures k < Height(|level|) && 2 * i < |Lift(H, level, k)| && x == Pair(Lift(H, level, k), i)
    decreases |level|
  {
    if x in Pairs(level) {
      i :| 0 <= i < (|level| + 1) / 2 && x == Pair(level, i);
      k := 0;
    } else {
      k, i := NodeStringAt(H, Parents(H, level), x);
      LiftParents(H, level, k);
      k := k + 1;
    }
  }

  lemma {:induction false} LiftParents(H: Hasher, level: seq<Digest>, k: nat)
    ensures Lift(H, Parents(H, level), k) == Lift(H, level, k + 1)
  {
    if k > 0 { LiftParents(H, level, k - 1); }
  }

  /** Folding a path of the tree hashes strings of the tree only. */
  lemma {:induction false} PathInputs(H: Hasher, level: seq<Digest>, pos: nat)
    requires pos < |level|
    ensures FoldInputs(H, level[pos], Path(H, level, pos)) <= NodeInputs(H, level)
    decreases |level|
  {
    if |level| > 1 {
      PathStep(H, level, pos);
      PathInputs(H, Parents(H, level), pos / 2);
      assert Pair(level, pos / 2) in Pairs(level);
    }
  }

  /** The path of a node of the tree folds to the root and hashes only strings of the tree. */
  lemma NodePath(H: Hasher, level: seq<Digest>, k: nat, i: nat)
    requires |level| > 0 && Distinct(level) && 0 < k <= Height(|level|) && i < |Lift(H, level, k)|
    requires CollisionFree(H, NodeInputs(H, level))
    ensures var path := Path(H, Lift(H, level, k), i);
            && Fold(H, Lift(H, level, k)[i], path) == Some(Top(H, level))
            && |path| < Height(|level|)
            && FoldInputs(H, Lift(H, level, k)[i], path) <= NodeInputs(H, level)
  {
    hide Fold, Top, Distinct, NodeInputs, FoldInputs, Height, Lift, Path;
    LiftKeeps(H, level, k);
    PathFolds(H, Lift(H, level, k), i);
    PathInputs(H, Lift(H, level, k), i);
  }

  /** The path from the node of a node string: shorter than the tree, and accepted. */
  lemma NodeHasShortProof(H: Hasher, s: State, key: ByteString, value: ByteString) returns (p: Proof)
    requires NulFreeKeys(s) && CollisionFree(H, HashedFor(H, s))
    requires Leaf(key, value) in NodeStrings(H, s)
    ensures ShortProof(H, s, p) && p.key == key && p.value == value
  {
    hide Leaf, HashedFor, NulFreeKeys, Leaves, LeafLevel, Distinct, Height, NodeInputs, Lift, Path, Fold, FoldInputs,
         CollisionFree, Top, ShortProof;
    var x, level := Leaf(key, value), LeafLevel(H, Leaves(s));
    LeavesDistinct(H, s);
    StateNodesAreHashed(H, s);
    LevelOfState(H, s);
    HeightIsZero(|level|);
    FewerInputs(H, NodeInputs(H, level), HashedFor(H, s));
    var k, i := NodeStringAt(H, level, x);
    NodeAbove(H, level, k, i);
    NodePath(H, level, k + 1, i);
    p := ShortProofOf(H, s, key, value, Path(H, Lift(H, level, k + 1), i));
  }

  lemma ShortProofOf(H: Hasher, s: State, key: ByteString, value: ByteString, path: seq<Step>) returns (p: Proof)
    requires CollisionFree(H, HashedFor(H, s)) && Leaf(key, value) in HashedFor(H, s) && |path| < Height(|s|)
    requires Fold(H, H(Leaf(key, value)), path) == Some(Top(H, LeafLevel(H, Leaves(s))))
    requires FoldInputs(H, H(Leaf(key, value)), path) <= HashedFor(H, s)
    ensures ShortProof(H, s, p) && p.key == key && p.value == value
  {
    SizeOfLeaves(s);
    hide Leaf, HashedFor, Leaves, LeafLevel, Fold, FoldInputs, CollisionFree, Top, HexEncode;
    p := Proof(key, value, true, HexEncode(H(Leaf(key, value))), StateRootOf(H, s), 0, 0, path);
    assert CheckInputs(H, p) + HashedFor(H, s) == HashedFor(H, s);
  }

  lemma SizeOfLeaves(s: State)
    ensures |Leaves(s)| == |s|
  {
    KeysAreKeys(s);
  }

  lemma LevelOfState(H: Hasher, s: State)
    ensures |LeafLevel(H, Leaves(s))| == |s| && NodeStrings(H, s) == NodeInputs(H, LeafLevel(H, Leaves(s)))
  {
    SizeOfLeaves(s);
  }

  lemma NodeAbove(H: Hasher, level: seq<Digest>, k: nat, i: nat)
    requires 2 * i < |Lift(H, level, k)|
    ensures i < |Lift(H, level, k + 1)| && Lift(H, level, k + 1)[i] == H(Pair(Lift(H, level, k), i))
  {}

  /** Exactly what short proofs can claim: the node strings of the tree, read as key, NUL and value. */
  lemma ShortProofsExactly(H: Hasher, s: State, key: ByteString, value: ByteString)
    requires NulFreeKeys(s) && CollisionFree(H, HashedFor(H, s))
    ensures (exists p :: ShortProof(H, s, p) && p.key == key && p.value == value)
       <==> Leaf(key, value) in NodeStrings(H, s)
  {
    hide ShortProof, NodeStrings, Leaf;
    if Leaf(key, value) in NodeStrings(H, s) {
      var p := NodeHasShortProof(H, s, key, value);
    }
    if p :| ShortProof(H, s, p) && p.key == key && p.value == value {
      ShortProofNamesNode(H, s, p);
    }
  }

  lemma SplitAtNul(x: ByteString) returns (key: ByteString, value: ByteString)
    requires 0 in x
    ensures NulFree(key) && Leaf(key, value) == x
  {
    var n := 0;
    while x[n] != 0
      invariant n < |x| && NulFree(x[..n])
      invariant 0 in x[n..]
      decreases |x| - n
    {
      assert x[n..] == [x[n]] + x[n + 1..];
      n := n + 1;
    }
    key, value := x[..n], x[n + 1..];
    assert x == x[..n] + [x[n]] + x[n + 1..];
  }

  /** A tree admits short proofs with NUL-free keys exactly when one of its node strings has a NUL. */
  lemma ShortProofsExist(H: Hasher, s: State)
    requires NulFreeKeys(s) && CollisionFree(H, HashedFor(H, s))
    ensures (exists p :: ShortProof(H, s, p) && NulFree(p.key))
       <==> exists x: ByteString :: x in NodeStrings(H, s) && 0 in x
  {
    hide ShortProof, NodeStrings, NulFreeKeys, NulFree;
    if p :| ShortProof(H, s, p) && NulFree(p.key) {
      ShortProofNamesNode(H, s, p);
      assert Leaf(p.key, p.value)[|p.key|] == 0;
    }
    if x: ByteString :| x in NodeStrings(H, s) && 0 in x {
      var key, value := SplitAtNul(x);
      var p := NodeHasShortProof(H, s, key, value);
    }
  }

  lemma LeafOfKey(s: State, leaf: ByteString)
    requires leaf in Leaves(s)
    ensures exists k :: k in s && leaf == Leaf(k, s[k])
  {
    KeysAreKeys(s);
    var i :| 0 <= i < |Leaves(s)| && Leaves(s)[i] == leaf;
    assert Keys(s)[i] in s;
  }

  lemma LeafIsHeld(s: State, key: ByteString, value: ByteString)
    requires NulFreeKeys(s) && NulFree(key)
    ensures Leaf(key, value) in Leaves(s) <==> key in s && s[key] == value
  {
    hide Leaf, NulFree, Leaves;
    if Leaf(key, value) in Leaves(s) {
      LeafOfKey(s, Leaf(key, value));
      var k :| k in s && Leaf(key, value) == Leaf(k, s[k]);
      LeafSplits(key, value, k, s[k]);
    }
    if key in s { KeyHasLeaf(s, key); }
  }

  lemma KeyHasLeaf(s: State, key: ByteString)
    requires key in s
    ensures Leaf(key, s[key]) in Leaves(s)
  {
    KeysAreKeys(s);
    var i :| 0 <= i < |Keys(s)| && Keys(s)[i] == key;
    assert Leaves(s)[i] == Leaf(key, s[key]);
  }

  /** Exactly when short proofs lie: some node string of the tree has a NUL and is no leaf of the state. */
  lemma FalseShortProofsExist(H: Hasher, s: State)
    requires NulFreeKeys(s) && CollisionFree(H, HashedFor(H, s))
    ensures (exists p :: ShortProof(H, s, p) && NulFree(p.key) && !(p.key in s && s[p.key] == p.value))
       <==> exists x: ByteString :: x in NodeStrings(H, s) && 0 in x && x !in Leaves(s)
  {
    hide ShortProof, NodeStrings, NulFreeKeys, NulFree, Leaves;
    if p :| ShortProof(H, s, p) && NulFree(p.key) && !(p.key in s && s[p.key] == p.value) {
      ShortProofNamesNode(H, s, p);
      LeafIsHeld(s, p.key, p.value);
      assert Leaf(p.key, p.value)[|p.key|] == 0;
    }
    if x: ByteString :| x in NodeStrings(H, s) && 0 in x && x !in Leaves(s) {
      var key, value := SplitAtNul(x);
      var p := NodeHasShortProof(H, s, key, value);
      LeafIsHeld(s, key, value);
    }
  }
}
