/** What accepted proofs say when their paths are longer than the tree is high: exactly which claims they can make. */
module LongProofs {
  import opened ByteStrings
  import opened Options
  import opened Merkle
  import opened MerkleBinding
  import opened ProofLengths

  ghost predicate DigestSized(path: seq<Step>) {
    forall i | 0 <= i < |path| && HexDecode(path[i].hash).Some? :: |HexDecode(path[i].hash).value| == 32
  }

  // ----- one step of a path -----

  /** A string that begins or ends with a digest: what a sibling of any width makes of it. */
  predicate Embeds(x: ByteString, d: Digest) {
    |x| >= 32 && (x[|x| - 32..] == d || x[..32] == d)
  }

  /** The step that climbs from a digest to a string that embeds it. */
  function StepTo(d: Digest, x: ByteString): Step
    requires Embeds(x, d)
  {
    if x[|x| - 32..] == d then Step(HexEncode(x[..|x| - 32]), true) else Step(HexEncode(x[32..]), false)
  }

  /** A digest can be climbed to exactly the strings that embed it. */
  lemma ClimbsExactly(d: Digest, x: ByteString)
    ensures (exists st :: Climb(d, st) == Some(x)) <==> Embeds(x, d)
    ensures Embeds(x, d) ==> Climb(d, StepTo(d, x)) == Some(x)
  {
    if Embeds(x, d) {
      HexRoundTrip(x[..|x| - 32]);
      HexRoundTrip(x[32..]);
      assert x == x[..|x| - 32] + x[|x| - 32..] == x[..32] + x[32..];
      assert Climb(d, StepTo(d, x)) == Some(x);
    }
    if st :| Climb(d, st) == Some(x) {
      assert if st.left then x[|x| - 32..] == d else x[..32] == d;
    }
  }

  // ----- several steps -----

  /** Each string embeds the digest of the one before it. */
  predicate Nested(H: Hasher, x: ByteString, xs: seq<ByteString>)
    decreases |xs|
  {
    |xs| == 0 || (Embeds(xs[0], H(x)) && Nested(H, xs[0], xs[1..]))
  }

  function Outermost(x: ByteString, xs: seq<ByteString>): ByteString { if |xs| == 0 then x else xs[|xs| - 1] }

  function NestedPath(H: Hasher, x: ByteString, xs: seq<ByteString>): (r: seq<Step>)
    requires Nested(H, x, xs)
    ensures |r| == |xs|
    decreases |xs|
  {
    if |xs| == 0 then [] else [StepTo(H(x), xs[0])] + NestedPath(H, xs[0], xs[1..])
  }

  ghost function Strings(xs: seq<ByteString>): set<ByteString> { set y | y in xs }

  /** Climbing through nested strings and then on. */
  lemma {:induction false} NestedFolds(H: Hasher, x: ByteString, xs: seq<ByteString>, rest: seq<Step>)
    requires Nested(H, x, xs)
    ensures var path := NestedPath(H, x, xs) + rest;
            && Fold(H, H(x), path) == Fold(H, H(Outermost(x, xs)), rest)
            && FoldInputs(H, H(x), path) == Strings(xs) + FoldInputs(H, H(Outermost(x, xs)), rest)
    decreases |xs|
  {
    hide Embeds, StepTo, Climb;
    var path := NestedPath(H, x, xs) + rest;
    if |xs| == 0 {
      assert path == rest;
    } else {
      NestedFolds(H, xs[0], xs[1..], rest);
      ClimbsExactly(H(x), xs[0]);
      assert path[0] == StepTo(H(x), xs[0]) && path[1..] == NestedPath(H, xs[0], xs[1..]) + rest;
      assert xs == [xs[0]] + xs[1..];
    }
  }

  /** The strings that the first steps of a path climb to. */
  lemma {:induction false} ClimbedStrings(H: Hasher, x: ByteString, path: seq<Step>, n: nat)
    returns (xs: seq<ByteString>)
    requires n <= |path| && Fold(H, H(x), path).Some?
    ensures |xs| == n && Nested(H, x, xs) && Strings(xs) <= FoldInputs(H, H(x), path)
    ensures DigestSized(path) ==> forall i | 0 <= i < n :: |xs[i]| == 64
    ensures Fold(H, H(Outermost(x, xs)), path[n..]) == Fold(H, H(x), path)
    ensures FoldInputs(H, H(Outermost(x, xs)), path[n..]) <= FoldInputs(H, H(x), path)
    decreases n
  {
    hide Embeds, Climb, Fold, FoldInputs, DigestSized, Nested;
    if n == 0 {
      xs := [];
      assert path[0..] == path;
      NothingNested(H, x);
    } else {
      FoldStep(H, H(x), path);
      var y := Climb(H(x), path[0]).value;
      ClimbsExactly(H(x), y);
      RestIsSized(H(x), path);
      var ys := ClimbedStrings(H, y, path[1..], n - 1);
      xs := [y] + ys;
      NestedCons(H, x, y, ys);
      assert path[1..][n - 1..] == path[n..];
    }
  }

  lemma FoldStep(H: Hasher, d: Digest, path: seq<Step>)
    requires |path| > 0 && Fold(H, d, path).Some?
    ensures Climb(d, path[0]).Some?
    ensures var y := Climb(d, path[0]).value;
            && Fold(H, H(y), path[1..]) == Fold(H, d, path)
            && FoldInputs(H, d, path) == {y} + FoldInputs(H, H(y), path[1..])
  {
    hide Climb;
  }

  lemma NothingNested(H: Hasher, x: ByteString)
    ensures Nested(H, x, []) && Strings([]) == {}
  {}

  lemma NestedCons(H: Hasher, x: ByteString, y: ByteString, ys: seq<ByteString>)
    requires Embeds(y, H(x)) && Nested(H, y, ys)
    ensures Nested(H, x, [y] + ys) && Outermost(x, [y] + ys) == Outermost(y, ys)
    ensures Strings([y] + ys) == {y} + Strings(ys)
  {
    hide Embeds;
    assert ([y] + ys)[1..] == ys;
  }

  lemma RestIsSized(d: Digest, path: seq<Step>)
    requires |path| > 0 && Climb(d, path[0]).Some?
    ensures DigestSized(path) ==> DigestSized(path[1..]) && |Climb(d, path[0]).value| == 64
  {
    hide HexDecode;
  }

  // ----- proofs longer than the tree -----

  /** An accepted proof whose path is longer than the tree is high by n. */
  ghost predicate LongProof(H: Hasher, s: State, p: Proof, n: nat) {
    ProofFor(H, s, p) && |p.path| == Height(|s|) + n
  }

  /** Nested strings that lead from a claimed leaf to a leaf of the state, without a collision. */
  ghost predicate ReachesLeaf(H: Hasher, s: State, x: ByteString, xs: seq<ByteString>) {
    && Nested(H, x, xs) && Outermost(x, xs) in Leaves(s)
    && CollisionFree(H, {x} + Strings(xs) + HashedFor(H, s))
  }

  lemma LongProofReaches(H: Hasher, s: State, p: Proof, n: nat) returns (xs: seq<ByteString>)
    requires |s| > 0 && LongProof(H, s, p, n)
    ensures |xs| == n && ReachesLeaf(H, s, Leaf(p.key, p.value), xs)
    ensures DigestSized(p.path) ==> forall i | 0 <= i < n :: |xs[i]| == 64
  {
    var x, level := Leaf(p.key, p.value), LeafLevel(H, Leaves(s));
    var all := CheckInputs(H, p) + HashedFor(H, s);
    ProofFolds(H, s, p);
    HashedParts(H, s);
    hide Accepted, Fold, FoldInputs, Height, HashedFor, Leaves, LeafLevel, NodeInputs, CollisionFree, Nested, Top, Leaf,
         RootDigest, DigestSized;
    xs := ClimbedStrings(H, x, p.path, n);
    var y := Outermost(x, xs);
    FewerInputs(H, FoldInputs(H, H(y), p.path[n..]) + NodeInputs(H, level), all);
    FoldIsSound(H, H(y), p.path[n..], level);
    LeafOfDigest(H, s, y, CheckInputs(H, p));
    FewerInputs(H, {x} + Strings(xs) + HashedFor(H, s), all);
  }

  /** A digest of the leaf level comes from a leaf. */
  lemma LeafOfDigest(H: Hasher, s: State, y: ByteString, a: set<ByteString>)
    requires |s| > 0 && y in a && H(y) in LeafLevel(H, Leaves(s)) && CollisionFree(H, a + HashedFor(H, s))
    ensures y in Leaves(s)
  {
    HashedParts(H, s);
    hide Leaves, HashedFor, NodeInputs, RootDigest, Top;
    var ls := Leaves(s);
    var i :| 0 <= i < |ls| && LeafLevel(H, ls)[i] == H(y);
    assert ls[i] in ls;
    SameString(H, y, ls[i], a, HashedFor(H, s));
  }

  /** The honest path of a leaf of a state. */
  lemma LeafPath(H: Hasher, s: State, y: ByteString) returns (path: seq<Step>)
    requires |s| > 0 && y in Leaves(s)
    ensures Fold(H, H(y), path) == Some(RootDigest(H, Leaves(s))) && |path| == Height(|s|)
    ensures FoldInputs(H, H(y), path) <= HashedFor(H, s) && DigestSized(path)
  {
    HashedParts(H, s);
    hide Leaves, HashedFor, Fold, FoldInputs, NodeInputs, Top, RootDigest, DigestSized, Height, Path;
    var ls := Leaves(s);
    var level := LeafLevel(H, ls);
    var i :| 0 <= i < |ls| && ls[i] == y;
    path := Path(H, level, i);
    PathFolds(H, level, i);
    PathInputs(H, level, i);
    PathIsDigestSized(H, level, i);
  }

  lemma {:induction false} PathIsDigestSized(H: Hasher, level: seq<Digest>, pos: nat)
    requires pos < |level|
    ensures DigestSized(Path(H, level, pos))
    decreases |level|
  {
    if |level| > 1 {
      var sib := Sibling(|level|, pos);
      HexRoundTrip(level[sib]);
      PathIsDigestSized(H, Parents(H, level), pos / 2);
      var path, rest := Path(H, level, pos), Path(H, Parents(H, level), pos / 2);
      assert path == [Step(HexEncode(level[sib]), sib < pos)] + rest;
      hide Path, HexEncode, HexDecode;
      assert forall i | 0 < i < |path| :: path[i] == rest[i - 1];
    }
  }

  /** The proof that climbs through nested strings and then along the honest path of the leaf it reached. */
  lemma ReachingProof(H: Hasher, s: State, key: ByteString, value: ByteString, xs: seq<ByteString>)
    returns (p: Proof, rest: seq<Step>)
    requires |s| > 0 && ReachesLeaf(H, s, Leaf(key, value), xs)
    ensures LongProof(H, s, p, |xs|) && p.key == key && p.value == value
    ensures p.path == NestedPath(H, Leaf(key, value), xs) + rest && DigestSized(rest)
  {
    hide Fold, FoldInputs, Height, HashedFor, Leaves, CollisionFree, Nested, NestedPath, Leaf, RootDigest, DigestSized,
         HexEncode;
    var x := Leaf(key, value);
    rest := LeafPath(H, s, Outermost(x, xs));
    NestedFolds(H, x, xs, rest);
    p := Proof(key, value, true, HexEncode(H(x)), StateRootOf(H, s), 0, 0, NestedPath(H, x, xs) + rest);
    FewerInputs(H, CheckInputs(H, p) + HashedFor(H, s), {x} + Strings(xs) + HashedFor(H, s));
  }

  /** Exactly what a proof longer than the tree by n steps can claim: a leaf from which n nested strings lead to a leaf
      of the state. For n == 0 that is a leaf of the state itself. */
  lemma LongProofsExactly(H: Hasher, s: State, key: ByteString, value: ByteString, n: nat)
    requires |s| > 0
    ensures (exists p :: LongProof(H, s, p, n) && p.key == key && p.value == value)
       <==> exists xs :: |xs| == n && ReachesLeaf(H, s, Leaf(key, value), xs)
  {
    hide LongProof, ReachesLeaf, Leaf;
    if p :| LongProof(H, s, p, n) && p.key == key && p.value == value {
      var xs := LongProofReaches(H, s, p, n);
    }
    if xs :| |xs| == n && ReachesLeaf(H, s, Leaf(key, value), xs) {
      var p, rest := ReachingProof(H, s, key, value, xs);
    }
  }

  /** One step more than the tree is high: some leaf of the state begins or ends with the digest of the claim. */
  lemma OneStepExactly(H: Hasher, s: State, key: ByteString, value: ByteString)
    requires |s| > 0 && CollisionFree(H, {Leaf(key, value)} + HashedFor(H, s))
    ensures (exists p :: LongProof(H, s, p, 1) && p.key == key && p.value == value)
       <==> exists y :: y in Leaves(s) && Embeds(y, H(Leaf(key, value)))
  {
    hide LongProof, Leaf, Embeds, Leaves, CollisionFree, HashedFor;
    var x := Leaf(key, value);
    LongProofsExactly(H, s, key, value, 1);
    if xs :| |xs| == 1 && ReachesLeaf(H, s, x, xs) {
      assert xs[0] in Leaves(s) && Embeds(xs[0], H(x));
    }
    if y :| y in Leaves(s) && Embeds(y, H(x)) {
      OneEmbeddingReaches(H, s, x, y);
    }
  }

  lemma OneEmbeddingReaches(H: Hasher, s: State, x: ByteString, y: ByteString)
    requires y in Leaves(s) && Embeds(y, H(x)) && CollisionFree(H, {x} + HashedFor(H, s))
    ensures ReachesLeaf(H, s, x, [y]) && |[y]| == 1
  {
    hide Embeds, Leaves, HashedFor, CollisionFree;
    LeavesAreHashed(H, s, y);
    assert [y][0] == y && [y][1..] == [];
    assert Nested(H, y, [y][1..]);
    FewerInputs(H, {x} + Strings([y]) + HashedFor(H, s), {x} + HashedFor(H, s));
  }

  lemma LeavesAreHashed(H: Hasher, s: State, y: ByteString)
    requires y in Leaves(s)
    ensures y in HashedFor(H, s)
  {}

  /** Whoever may write one value can have any claim accepted: a value that ends with the digest of the claim's leaf
      makes the rest of its leaf a sibling. That sibling has the width of a digest only when the leaf has 64 bytes. */
  lemma OneValueProvesAnything(H: Hasher, s: State, mine: ByteString, x: ByteString, key: ByteString,
                               value: ByteString) returns (p: Proof)
    requires mine in s && s[mine] == x + H(Leaf(key, value))
    requires CollisionFree(H, {Leaf(key, value)} + HashedFor(H, s))
    ensures LongProof(H, s, p, 1) && p.key == key && p.value == value
    ensures DigestSized(p.path) <==> |Leaf(mine, s[mine])| == 64
  {
    var claim, y := Leaf(key, value), Leaf(mine, s[mine]);
    assert y[|y| - 32..] == H(claim) && |y| == |mine| + 1 + |x| + 32;
    KeyHasLeaf(s, mine);
    assert |s| > 0;
    hide LongProof, Leaf, Leaves, HashedFor, CollisionFree, HexEncode, HexDecode, ReachesLeaf, DigestSized;
    OneEmbeddingReaches(H, s, claim, y);
    var rest;
    p, rest := ReachingProof(H, s, key, value, [y]);
    OneStepPath(H, claim, y);
    HexRoundTrip(y[..|y| - 32]);
    FirstStepDecides(p.path, rest, y[..|y| - 32]);
  }

  lemma OneStepPath(H: Hasher, x: ByteString, y: ByteString)
    requires |y| >= 32 && y[|y| - 32..] == H(x)
    ensures Nested(H, x, [y]) && NestedPath(H, x, [y]) == [Step(HexEncode(y[..|y| - 32]), true)]
  {
    assert [y][1..] == [];
  }

  lemma FirstStepDecides(path: seq<Step>, rest: seq<Step>, sib: ByteString)
    requires path == [Step(HexEncode(sib), true)] + rest && DigestSized(rest) && HexDecode(HexEncode(sib)) == Some(sib)
    ensures DigestSized(path) <==> |sib| == 32
  {
    hide HexEncode, HexDecode;
    assert path[0].hash == HexEncode(sib);
    if |sib| == 32 {
      forall i | 0 <= i < |path| && HexDecode(path[i].hash).Some? ensures |HexDecode(path[i].hash).value| == 32 {
        if i > 0 { assert path[i] == rest[i - 1]; }
      }
    }
  }

  /** The empty root has no accepted proof. */
  lemma EmptyRootProvesNothing(H: Hasher, s: State, p: Proof)
    requires |s| == 0
    ensures !ProofFor(H, s, p)
  {
    if ProofFor(H, s, p) {
      ProofFolds(H, s, p);
      assert [] in HashedFor(H, s);
      var leaf := Leaf(p.key, p.value);
      var xs := ClimbedStrings(H, leaf, p.path, |p.path|);
      OutermostIsLong(H, leaf, xs);
      assert p.path[|p.path|..] == [];
      SameString(H, Outermost(leaf, xs), [], CheckInputs(H, p), HashedFor(H, s));
      assert false;
    }
  }

  lemma {:induction false} OutermostIsLong(H: Hasher, x: ByteString, xs: seq<ByteString>)
    requires Nested(H, x, xs) && |x| > 0
    ensures |Outermost(x, xs)| > 0
    decreases |xs|
  {
    if |xs| > 0 { OutermostIsLong(H, xs[0], xs[1..]); }
  }

  // ----- proofs of any length -----

  /** Exactly what accepted proofs can claim, whatever the length of their paths: the node strings of the tree, the
      leaves of the state, and the leaves from which nested strings lead to one. */
  lemma AcceptedExactly(H: Hasher, s: State, key: ByteString, value: ByteString)
    requires NulFreeKeys(s) && CollisionFree(H, HashedFor(H, s))
    ensures (exists p :: ProofFor(H, s, p) && p.key == key && p.value == value)
       <==> || Leaf(key, value) in NodeStrings(H, s)
            || exists xs :: ReachesLeaf(H, s, Leaf(key, value), xs)
  {
    hide ProofFor, ReachesLeaf, Leaf, NodeStrings, HashedFor, CollisionFree, NulFreeKeys, Height;
    if p :| ProofFor(H, s, p) && p.key == key && p.value == value {
      if |s| == 0 {
        EmptyRootProvesNothing(H, s, p);
      } else if |p.path| < Height(|s|) {
        ShortProofNamesNode(H, s, p);
      } else {
        var xs := LongProofReaches(H, s, p, |p.path| - Height(|s|));
      }
    }
    if Leaf(key, value) in NodeStrings(H, s) {
      var p := NodeHasShortProof(H, s, key, value);
    } else if xs :| ReachesLeaf(H, s, Leaf(key, value), xs) {
      ReachingNeedsLeaves(H, s, Leaf(key, value), xs);
      var p, rest := ReachingProof(H, s, key, value, xs);
    }
  }

  lemma ReachingNeedsLeaves(H: Hasher, s: State, x: ByteString, xs: seq<ByteString>)
    requires ReachesLeaf(H, s, x, xs)
    ensures |s| > 0
  {
    SizeOfLeaves(s);
  }

  /** Exactly when a claim that a state does not bear out has an accepted proof: it is a node string of the tree, or
      some leaf is reached from it through at least one embedding. */
  lemma FalseClaimsExactly(H: Hasher, s: State, key: ByteString, value: ByteString)
    requires NulFreeKeys(s) && CollisionFree(H, HashedFor(H, s))
    requires NulFree(key) && !(key in s && s[key] == value)
    ensures (exists p :: ProofFor(H, s, p) && p.key == key && p.value == value)
       <==> || Leaf(key, value) in NodeStrings(H, s)
            || exists xs :: |xs| > 0 && ReachesLeaf(H, s, Leaf(key, value), xs)
  {
    hide ProofFor, Leaf, NodeStrings, HashedFor, CollisionFree, NulFreeKeys, NulFree, Leaves, Nested;
    AcceptedExactly(H, s, key, value);
    LeafIsHeld(s, key, value);
    assert forall xs | ReachesLeaf(H, s, Leaf(key, value), xs) :: |xs| > 0;
  }

  // ----- soundness by leaf size -----

  /** With siblings of digest width, a proof longer than the tree is high goes through a leaf of 64 bytes. */
  lemma LongProofClimbsLeaf(H: Hasher, s: State, p: Proof)
    requires |s| > 0 && ProofFor(H, s, p) && |p.path| > Height(|s|) && DigestSized(p.path)
    ensures !NoNodeSizedLeaf(s)
  {
    hide ProofFor, DigestSized, Leaf, Leaves, Height;
    var xs := LongProofReaches(H, s, p, |p.path| - Height(|s|));
    LeafOfKey(s, xs[|xs| - 1]);
  }

  /** Without a word about lengths: an accepted proof with digest-sized siblings tells the truth about its key,
      whenever neither its own leaf nor any leaf of the state has the 64 bytes of a node string. */
  lemma ProofsAreSoundBySize(H: Hasher, s: State, p: Proof)
    requires ProofFor(H, s, p) && NulFreeKeys(s) && NulFree(p.key)
    requires DigestSized(p.path) && |Leaf(p.key, p.value)| != 64 && NoNodeSizedLeaf(s)
    ensures p.key in s && s[p.key] == p.value
  {
    hide ProofFor, NulFree, NulFreeKeys, DigestSized;
    if |s| == 0 {
      EmptyRootProvesNothing(H, s, p);
    } else if |p.path| < Height(|s|) {
      ShortProofNamesNode(H, s, p);
    } else if |p.path| > Height(|s|) {
      LongProofClimbsLeaf(H, s, p);
    } else {
      MatchingProofIsSound(H, s, p);
    }
  }

  lemma MatchingProofIsSound(H: Hasher, s: State, p: Proof)
    requires ProofFor(H, s, p) && NulFreeKeys(s) && NulFree(p.key) && |p.path| == Height(|s|)
    ensures p.key in s && s[p.key] == p.value
  {
    ProofsAreSound(H, s, p);
  }

  // ----- the conditions of soundness by leaf size cannot be dropped -----

  /** A false claim with an accepted proof. */
  ghost predicate Lies(H: Hasher, s: State, p: Proof) {
    && ProofFor(H, s, p) && NulFreeKeys(s) && NulFree(p.key)
    && !(p.key in s && s[p.key] == p.value)
  }

  /** Three lies, each of which violates exactly one of the conditions: the siblings have digest width, the claimed
      leaf has not 64 bytes, no leaf of the state has. */
  lemma SizeConditionsAreNeeded() returns (s: State, p: Proof, t: State, q: Proof, u: State, r: Proof)
    ensures Lies(ToyHash, s, p) && |Leaf(p.key, p.value)| != 64 && NoNodeSizedLeaf(s) && !DigestSized(p.path)
    ensures Lies(ToyHash, t, q) && |Leaf(q.key, q.value)| != 64 && !NoNodeSizedLeaf(t) && DigestSized(q.path)
    ensures Lies(ToyHash, u, r) && |Leaf(r.key, r.value)| == 64 && NoNodeSizedLeaf(u) && DigestSized(r.path)
  {
    hide Lies, DigestSized, NoNodeSizedLeaf, Leaf;
    s, p := EmbeddingLie([]);
    var wide: ByteString := seq(30, _ => 0);
    t, q := EmbeddingLie(wide);
    u, r := NodeStringLie();
  }

  lemma EmbeddingLie(x: ByteString) returns (s: State, p: Proof)
    ensures Lies(ToyHash, s, p) && |Leaf(p.key, p.value)| != 64
    ensures (NoNodeSizedLeaf(s) <==> |x| != 30) && (DigestSized(p.path) <==> |x| == 30)
  {
    hide Leaves, HashedFor, CollisionFree, DigestSized, ProofFor, ToyHash;
    var mine, key: ByteString := [1], [2];
    s := map[mine := x + ToyHash(Leaf(key, []))];
    EmbeddingApart(s, mine, key, x);
    p := OneValueProvesAnything(ToyHash, s, mine, x, key, []);
    assert |Leaf(mine, s[mine])| == 34 + |x| && |Leaf(key, [])| == 2;
    assert mine in s && key !in s;
  }

  lemma EmbeddingApart(s: State, mine: ByteString, key: ByteString, x: ByteString)
    requires mine == [1] && key == [2] && s == map[mine := x + ToyHash(Leaf(key, []))]
    ensures CollisionFree(ToyHash, {Leaf(key, [])} + HashedFor(ToyHash, s))
  {
    var y := Leaf(mine, s[mine]);
    OneKey(s, mine);
    OneLeafHashed(ToyHash, s, y);
    hide HashedFor, Leaves;
    assert y[0] == 1 && Leaf(key, [])[0] == 2;
    assert ToyHash(Leaf(key, []))[0] == 2 && ToyHash(y)[0] != 2;
  }

  lemma OneLeafHashed(H: Hasher, s: State, y: ByteString)
    requires Leaves(s) == [y]
    ensures HashedFor(H, s) == {y}
  {
    assert (set l | l in [y]) == {y};
  }

  lemma NodeStringLie() returns (u: State, r: Proof)
    ensures Lies(ToyHash, u, r) && |Leaf(r.key, r.value)| == 64 && NoNodeSizedLeaf(u) && DigestSized(r.path)
  {
    var s, n;
    s, u, n := ToysExist();
    ToyLeaves(s, u, n);
    ToyRoots(s, u, [1, 0], [2, 0], n);
    ToyHashIsSplit([1, 0], [2, 0], n);
    SizeOfLeaves(u);
    StateNodesAre(ToyHash, u, n);
    hide ToyHash, Pad;
    r := NodeHasShortProof(ToyHash, u, [1], s[[1]]);
    assert |u| == 2 && |r.path| == 0;
  }

  lemma StateNodesAre(H: Hasher, s: State, n: ByteString)
    requires |s| > 0 && n in HashedFor(H, s) && n !in Leaves(s)
    ensures n in NodeStrings(H, s)
  {
    HashedParts(H, s);
  }
}
