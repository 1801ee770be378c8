/** What a root commits to. SHA-256 is any function here, so every result assumes that it does not collide
    on the finite set of strings that were actually hashed, and on nothing else. */
module MerkleBinding {
  import opened ByteStrings
  import opened Options
  import opened Sorting
  import opened Merkle

  ghost predicate CollisionFree(H: Hasher, hashed: set<ByteString>) {
    forall x, y | x in hashed && y in hashed && H(x) == H(y) :: x == y
  }

  ghost predicate Distinct(level: seq<Digest>) {
    forall i, j | 0 <= i < j < |level| :: level[i] != level[j]
  }

  ghost function Pairs(level: seq<Digest>): (r: set<ByteString>)
    ensures forall i | 0 <= i < (|level| + 1) / 2 :: Pair(level, i) in r
  {
    set i | 0 <= i < (|level| + 1) / 2 :: Pair(level, i)
  }

  /** Everything hashed above a level. */
  ghost function NodeInputs(H: Hasher, level: seq<Digest>): set<ByteString>
    decreases |level|
  {
    if |level| <= 1 then {} else Pairs(level) + NodeInputs(H, Parents(H, level))
  }

  /** Everything hashed while a root is computed. */
  ghost function Hashed(H: Hasher, leaves: seq<ByteString>): set<ByteString> {
    if |leaves| == 0 then {[]} else (set l | l in leaves) + NodeInputs(H, LeafLevel(H, leaves))
  }

  ghost function HashedFor(H: Hasher, s: State): set<ByteString> { Hashed(H, Leaves(s)) }

  lemma PairSplits(a: seq<Digest>, i: nat, b: seq<Digest>, j: nat)
    requires 2 * i < |a| && 2 * j < |b| && Pair(a, i) == Pair(b, j)
    ensures a[2 * i] == b[2 * j]
    ensures 2 * i + 1 < |a| && 2 * j + 1 < |b| ==> a[2 * i + 1] == b[2 * j + 1]
    ensures 2 * i + 1 < |a| && 2 * j + 1 >= |b| ==> a[2 * i + 1] == a[2 * i]
    ensures 2 * i + 1 >= |a| && 2 * j + 1 < |b| ==> b[2 * j + 1] == b[2 * j]
  {
    assert Pair(a, i)[..32] == a[2 * i] && Pair(b, j)[..32] == b[2 * j];
    assert Pair(a, i)[32..] == a[if 2 * i + 1 < |a| then 2 * i + 1 else 2 * i];
    assert Pair(b, j)[32..] == b[if 2 * j + 1 < |b| then 2 * j + 1 else 2 * j];
  }

  lemma ParentsStayDistinct(H: Hasher, level: seq<Digest>)
    requires |level| > 1 && Distinct(level) && CollisionFree(H, Pairs(level))
    ensures Distinct(Parents(H, level))
  {
    var up := Parents(H, level);
    forall i, j | 0 <= i < j < |up| ensures up[i] != up[j] {
      if up[i] == up[j] {
        assert Pair(level, i) == Pair(level, j);
        PairSplits(level, i, level, j);
      }
    }
  }

  lemma SamePair(H: Hasher, a: seq<Digest>, b: seq<Digest>, i: nat)
    requires 2 * i < |a| && 2 * i < |b| && Parents(H, a)[i] == Parents(H, b)[i]
    requires CollisionFree(H, Pairs(a) + Pairs(b))
    ensures Pair(a, i) == Pair(b, i)
  {
    assert Pair(a, i) in Pairs(a) && Pair(b, i) in Pairs(b);
  }

  /** A duplicated last node cannot stand for two real ones, because those would be equal. */
  lemma PairsBind(a: seq<Digest>, b: seq<Digest>)
    requires Distinct(a) && Distinct(b) && (|a| + 1) / 2 == (|b| + 1) / 2
    requires forall i | 0 <= 2 * i < |a| && 2 * i < |b| :: Pair(a, i) == Pair(b, i)
    ensures a == b
  {
    if |a| > 0 {
      var last := (|a| - 1) / 2;
      assert Pair(a, last) == Pair(b, last);
      PairSplits(a, last, b, last);
    }
    assert |a| == |b|;
    forall k | 0 <= k < |a| ensures a[k] == b[k] {
      assert Pair(a, k / 2) == Pair(b, k / 2);
      PairSplits(a, k / 2, b, k / 2);
    }
  }

  /** One level down: equal parents of two distinct levels come from equal children. */
  lemma ParentsBind(H: Hasher, a: seq<Digest>, b: seq<Digest>)
    requires Distinct(a) && Distinct(b)
    requires CollisionFree(H, Pairs(a) + Pairs(b))
    requires Parents(H, a) == Parents(H, b)
    ensures a == b
  {
    assert (|a| + 1) / 2 == |Parents(H, a)| == |Parents(H, b)| == (|b| + 1) / 2;
    forall i | 0 <= 2 * i < |a| && 2 * i < |b| ensures Pair(a, i) == Pair(b, i) {
      SamePair(H, a, b, i);
    }
    PairsBind(a, b);
  }

  /** Trees of one height with one top are one tree. */
  lemma {:induction false} LevelsBind(H: Hasher, a: seq<Digest>, b: seq<Digest>)
    requires |a| > 0 && |b| > 0 && Height(|a|) == Height(|b|)
    requires Distinct(a) && Distinct(b)
    requires CollisionFree(H, NodeInputs(H, a) + NodeInputs(H, b))
    requires Top(H, a) == Top(H, b)
    ensures a == b
    decreases |a|
  {
    if |a| > 1 {
      assert |b| > 1;
      ParentsStayDistinct(H, a);
      ParentsStayDistinct(H, b);
      LevelsBind(H, Parents(H, a), Parents(H, b));
      ParentsBind(H, a, b);
    }
  }

  /** The level k steps up. */
  function Lift(H: Hasher, level: seq<Digest>, k: nat): seq<Digest> {
    if k == 0 then level else Parents(H, Lift(H, level, k - 1))
  }

  /** The strings hashed into the next level up. */
  function PairList(level: seq<Digest>): (r: seq<ByteString>)
    ensures |r| == (|level| + 1) / 2
  {
    seq<ByteString>((|level| + 1) / 2, i requires 0 <= i < (|level| + 1) / 2 => Pair(level, i))
  }

  lemma LiftOne(H: Hasher, level: seq<Digest>)
    requires |level| > 1 && Distinct(level) && CollisionFree(H, NodeInputs(H, level))
    ensures var up := Parents(H, level);
            && |up| > 0 && Distinct(up) && Height(|up|) == Height(|level|) - 1
            && Top(H, up) == Top(H, level) && NodeInputs(H, up) <= NodeInputs(H, level)
  {
    ParentsStayDistinct(H, level);
  }

  lemma {:induction false} LiftKeeps(H: Hasher, level: seq<Digest>, k: nat)
    requires |level| > 0 && Distinct(level) && k <= Height(|level|)
    requires CollisionFree(H, NodeInputs(H, level))
    ensures |Lift(H, level, k)| > 0 && Distinct(Lift(H, level, k))
    ensures Height(|Lift(H, level, k)|) == Height(|level|) - k
    ensures Top(H, Lift(H, level, k)) == Top(H, level)
    ensures NodeInputs(H, Lift(H, level, k)) <= NodeInputs(H, level)
    ensures k < Height(|level|) ==> Pairs(Lift(H, level, k)) <= NodeInputs(H, level)
  {
    hide NodeInputs, Height, Top, Distinct, CollisionFree, Pairs, Parents;
    if k > 0 {
      LiftKeeps(H, level, k - 1);
      HeightIsZero(|Lift(H, level, k - 1)|);
      FewerInputs(H, NodeInputs(H, Lift(H, level, k - 1)), NodeInputs(H, level));
      LiftOne(H, Lift(H, level, k - 1));
    }
    HeightIsZero(|Lift(H, level, k)|);
    PairsAreHashed(H, Lift(H, level, k));
  }

  lemma HeightIsZero(n: nat)
    ensures Height(n) == 0 <==> n <= 1
  {}

  lemma FewerInputs(H: Hasher, a: set<ByteString>, b: set<ByteString>)
    requires a <= b && CollisionFree(H, b)
    ensures CollisionFree(H, a)
  {}

  lemma PairsAreHashed(H: Hasher, level: seq<Digest>)
    ensures |level| > 1 ==> Pairs(level) <= NodeInputs(H, level)
  {}

  /** A taller tree has the top of a lower one exactly when the lower one's bottom level is the taller
      one's level at that height. */
  lemma TopsAgree(H: Hasher, a: seq<Digest>, b: seq<Digest>)
    requires |a| > 0 && |b| > 0 && Height(|a|) <= Height(|b|)
    requires Distinct(a) && Distinct(b)
    requires CollisionFree(H, NodeInputs(H, a) + NodeInputs(H, b))
    ensures Top(H, a) == Top(H, b) <==> a == Lift(H, b, Height(|b|) - Height(|a|))
  {
    hide NodeInputs, Height, Top, Lift;
    var c := Lift(H, b, Height(|b|) - Height(|a|));
    LiftKeeps(H, b, Height(|b|) - Height(|a|));
    if Top(H, a) == Top(H, b) { LevelsBind(H, a, c); }
  }

  // ----- states -----

  predicate NulFree(k: ByteString) { forall i | 0 <= i < |k| :: k[i] != 0 }

  ghost predicate NulFreeKeys(s: State) { forall k | k in s :: NulFree(k) }

  /** With no NUL in the key, the separator can be found again. */
  lemma LeafSplits(k: ByteString, v: ByteString, k': ByteString, v': ByteString)
    requires NulFree(k) && NulFree(k')
    requires Leaf(k, v) == Leaf(k', v')
    ensures k == k' && v == v'
  {
    var x := Leaf(k, v);
    assert x[|k|] == 0 && x[|k'|] == 0;
    assert forall i | 0 <= i < |k| :: x[i] == k[i];
    assert forall i | 0 <= i < |k'| :: x[i] == k'[i];
    assert x[..|k|] == k && x[..|k'|] == k';
    assert x[|k| + 1..] == v && x[|k'| + 1..] == v';
  }

  lemma LeavesDistinct(H: Hasher, s: State)
    requires NulFreeKeys(s) && CollisionFree(H, HashedFor(H, s))
    ensures Distinct(LeafLevel(H, Leaves(s)))
  {
    hide HashedFor, CollisionFree, NulFree, Leaf, Keys;
    KeysAreKeys(s);
    var ks, ls := Keys(s), Leaves(s);
    forall i, j | 0 <= i < j < |ls| ensures LeafLevel(H, ls)[i] != LeafLevel(H, ls)[j] {
      if H(ls[i]) == H(ls[j]) {
        SameLeafString(H, s, i, j);
        assert ks[i] in s && ks[j] in s && ks[i] != ks[j];
        LeafSplits(ks[i], s[ks[i]], ks[j], s[ks[j]]);
      }
    }
  }

  lemma SameLeafString(H: Hasher, s: State, i: nat, j: nat)
    requires i < |Leaves(s)| && j < |Leaves(s)| && H(Leaves(s)[i]) == H(Leaves(s)[j])
    requires CollisionFree(H, HashedFor(H, s))
    ensures Leaves(s)[i] == Leaves(s)[j]
  {
    hide Leaves, LeafLevel;
    var ls := Leaves(s);
    assert ls[i] in ls && ls[j] in ls;
  }

  lemma SameLeafSameKey(s: State, t: State, ks: seq<ByteString>, kt: seq<ByteString>, i: nat)
    requires NulFreeKeys(s) && NulFreeKeys(t)
    requires i < |ks| && i < |kt| && (forall k | k in ks :: k in s) && (forall k | k in kt :: k in t)
    requires LeavesAt(s, ks)[i] == LeavesAt(t, kt)[i]
    ensures ks[i] == kt[i] && s[ks[i]] == t[kt[i]]
  {
    LeafSplits(ks[i], s[ks[i]], kt[i], t[kt[i]]);
  }

  lemma LeavesDetermine(s: State, t: State)
    requires NulFreeKeys(s) && NulFreeKeys(t) && Leaves(s) == Leaves(t)
    ensures s == t
  {
    KeysAreKeys(s);
    KeysAreKeys(t);
    hide Keys;
    var ks, kt := Keys(s), Keys(t);
    assert |ks| == |LeavesAt(s, ks)| == |LeavesAt(t, kt)| == |kt|;
    forall i | 0 <= i < |ks| ensures ks[i] == kt[i] && s[ks[i]] == t[ks[i]] {
      SameLeafSameKey(s, t, ks, kt, i);
    }
    assert ks == kt;
    assert s.Keys == t.Keys;
  }

  lemma TopIsHashed(H: Hasher, level: seq<Digest>)
    requires |level| > 1
    ensures exists x :: x in NodeInputs(H, level) && |x| == 64 && Top(H, level) == H(x)
    decreases |level|
  {
    var up := Parents(H, level);
    if |up| == 1 {
      var x := Pair(level, 0);
      assert x in Pairs(level) && Top(H, level) == up[0] == H(x);
    } else {
      TopIsHashed(H, up);
    }
  }

  /** The empty root belongs to the empty state only. */
  lemma EmptyRoot(H: Hasher, t: State)
    requires |t| > 0 && CollisionFree(H, {[]} + HashedFor(H, t))
    ensures RootDigest(H, Leaves(t)) != H([])
  {
    KeysAreKeys(t);
    var ls := Leaves(t);
    if |ls| == 1 {
      assert ls[0] in ls && |ls[0]| > 0;
    } else {
      TopIsHashed(H, LeafLevel(H, ls));
    }
  }

  /** The leaves of s are, byte for byte, node strings of the tree of t, at the level where the tree of s
      would have its leaves. */
  ghost predicate LeavesAreNodesOf(H: Hasher, s: State, t: State) {
    && 0 < |s|
    && Height(|s|) < Height(|t|)
    && Leaves(s) == PairList(Lift(H, LeafLevel(H, Leaves(t)), Height(|t|) - Height(|s|) - 1))
  }

  /** Exactly when two states share a root: they are equal, or the leaves of the lower tree are inner nodes
      of the taller one. */
  lemma StateRootsAgree(H: Hasher, s: State, t: State)
    requires NulFreeKeys(s) && NulFreeKeys(t) && Height(|s|) <= Height(|t|)
    requires CollisionFree(H, HashedFor(H, s) + HashedFor(H, t))
    ensures StateRootOf(H, s) == StateRootOf(H, t) <==> s == t || LeavesAreNodesOf(H, s, t)
  {
    KeysAreKeys(s);
    KeysAreKeys(t);
    var ls, lt := Leaves(s), Leaves(t);
    if StateRootOf(H, s) == StateRootOf(H, t) { HexInjective(RootDigest(H, ls), RootDigest(H, lt)); }
    if |s| == 0 && |t| == 0 {
      assert s == t == map[];
    } else if |s| == 0 {
      EmptyRoot(H, t);
    } else if |t| == 0 {
      EmptyRoot(H, s);
    } else {
      NonemptyRootsAgree(H, s, t);
    }
  }

  lemma HashedParts(H: Hasher, s: State)
    requires |s| > 0
    ensures var ls := Leaves(s);
            && |ls| == |LeafLevel(H, ls)| == |s| && RootDigest(H, ls) == Top(H, LeafLevel(H, ls))
            && HashedFor(H, s) == (set l | l in ls) + NodeInputs(H, LeafLevel(H, ls))
  {
    KeysAreKeys(s);
    hide NodeInputs, Top, Keys;
  }

  lemma NonemptyRootsAgree(H: Hasher, s: State, t: State)
    requires NulFreeKeys(s) && NulFreeKeys(t) && 0 < |s| && 0 < |t| && Height(|s|) <= Height(|t|)
    requires CollisionFree(H, HashedFor(H, s) + HashedFor(H, t))
    ensures RootDigest(H, Leaves(s)) == RootDigest(H, Leaves(t)) <==> s == t || LeavesAreNodesOf(H, s, t)
  {
    hide CollisionFree, HashedFor, NodeInputs, Top, Height, Lift, Distinct, NulFreeKeys, Leaves, LeafLevel, RootDigest,
         PairList;
    HashedParts(H, s);
    HashedParts(H, t);
    var a, b := LeafLevel(H, Leaves(s)), LeafLevel(H, Leaves(t));
    var all := HashedFor(H, s) + HashedFor(H, t);
    FewerInputs(H, HashedFor(H, s), all);
    FewerInputs(H, HashedFor(H, t), all);
    LeavesDistinct(H, s);
    LeavesDistinct(H, t);
    FewerInputs(H, NodeInputs(H, a) + NodeInputs(H, b), all);
    TopsAgree(H, a, b);
    if Height(|s|) < Height(|t|) {
      FewerInputs(H, (set l | l in Leaves(s)) + NodeInputs(H, b), all);
      LeavesOrNodes(H, Leaves(s), b, Height(|t|) - Height(|s|) - 1);
    } else {
      LiftNothing(H, b);
      if a == b {
        FewerInputs(H, (set l | l in Leaves(s)) + (set l | l in Leaves(t)), all);
        SameLeaves(H, Leaves(s), Leaves(t));
        LeavesDetermine(s, t);
      }
    }
  }

  lemma LiftNothing(H: Hasher, level: seq<Digest>)
    ensures Lift(H, level, 0) == level
  {}

  lemma SameLeaves(H: Hasher, ls: seq<ByteString>, lt: seq<ByteString>)
    requires LeafLevel(H, ls) == LeafLevel(H, lt)
    requires CollisionFree(H, (set l | l in ls) + (set l | l in lt))
    ensures ls == lt
  {
    assert |ls| == |LeafLevel(H, ls)| == |lt|;
    forall i | 0 <= i < |ls| ensures ls[i] == lt[i] {
      assert LeafLevel(H, ls)[i] == LeafLevel(H, lt)[i];
      assert ls[i] in ls && lt[i] in lt;
    }
  }

  lemma LeavesOrNodes(H: Hasher, ls: seq<ByteString>, b: seq<Digest>, k: nat)
    requires |b| > 0 && Distinct(b) && k < Height(|b|)
    requires CollisionFree(H, (set l | l in ls) + NodeInputs(H, b))
    ensures LeafLevel(H, ls) == Lift(H, b, k + 1) <==> ls == PairList(Lift(H, b, k))
  {
    LiftKeeps(H, b, k);
    var c := Lift(H, b, k);
    assert LeafLevel(H, PairList(c)) == Parents(H, c);
    if LeafLevel(H, ls) == Parents(H, c) {
      forall x | x in PairList(c) ensures x in Pairs(c) {
        var i :| 0 <= i < |PairList(c)| && PairList(c)[i] == x;
        assert Pair(c, i) == x;
      }
      SameLeaves(H, ls, PairList(c));
    }
  }

  ghost predicate NoNodeSizedLeaf(s: State) {
    forall k | k in s :: |Leaf(k, s[k])| != 64
  }

  /** A state root binds the state, between trees of one height, or when the lower tree has no leaf of the
      64 bytes of a node string. */
  lemma StateRootBinds(H: Hasher, s: State, t: State)
    requires NulFreeKeys(s) && NulFreeKeys(t)
    requires CollisionFree(H, HashedFor(H, s) + HashedFor(H, t))
    requires Height(|s|) < Height(|t|) ==> NoNodeSizedLeaf(s)
    requires Height(|t|) < Height(|s|) ==> NoNodeSizedLeaf(t)
    ensures StateRootOf(H, s) == StateRootOf(H, t) ==> s == t
  {
    if Height(|s|) <= Height(|t|) {
      StateRootsAgree(H, s, t);
      if LeavesAreNodesOf(H, s, t) { NodeLeavesAreNodeSized(H, s, t); }
    } else {
      assert HashedFor(H, s) + HashedFor(H, t) == HashedFor(H, t) + HashedFor(H, s);
      StateRootsAgree(H, t, s);
      if LeavesAreNodesOf(H, t, s) { NodeLeavesAreNodeSized(H, t, s); }
    }
  }

  lemma NodeLeavesAreNodeSized(H: Hasher, s: State, t: State)
    requires LeavesAreNodesOf(H, s, t)
    ensures !NoNodeSizedLeaf(s)
  {
    KeysAreKeys(s);
    var c := Lift(H, LeafLevel(H, Leaves(t)), Height(|t|) - Height(|s|) - 1);
    var k := Keys(s)[0];
    assert k in s && Leaf(k, s[k]) == Leaves(s)[0] == PairList(c)[0] == Pair(c, 0);
  }

  // ----- soundness of inclusion proofs -----

  /** Everything hashed while a path is folded. */
  ghost function FoldInputs(H: Hasher, cur: Digest, path: seq<Step>): set<ByteString>
    decreases |path|
  {
    if |path| == 0 || Climb(cur, path[0]).None? then {}
    else {Climb(cur, path[0]).value} + FoldInputs(H, H(Climb(cur, path[0]).value), path[1..])
  }

  ghost function CheckInputs(H: Hasher, p: Proof): set<ByteString> {
    {Leaf(p.key, p.value)} + FoldInputs(H, H(Leaf(p.key, p.value)), p.path)
  }

  /** A path of the tree's height that folds to the top starts at a node of the level. */
  lemma {:induction false} FoldIsSound(H: Hasher, cur: Digest, path: seq<Step>, level: seq<Digest>)
    requires |level| > 0 && |path| == Height(|level|)
    requires Fold(H, cur, path) == Some(Top(H, level))
    requires CollisionFree(H, FoldInputs(H, cur, path) + NodeInputs(H, level))
    ensures cur in level
    decreases |level|
  {
    if |level| > 1 {
      var x := Climb(cur, path[0]).value;
      var up := Parents(H, level);
      FoldIsSound(H, H(x), path[1..], up);
      var i :| 0 <= i < |up| && up[i] == H(x);
      assert Pair(level, i) in Pairs(level);
      assert x == Pair(level, i) && |x| == 64;
      var sib := HexDecode(path[0].hash).value;
      assert |sib| == 32;
      assert if path[0].left then x[32..] == cur else x[..32] == cur;
      assert x[..32] == level[2 * i];
      assert x[32..] == level[if 2 * i + 1 < |level| then 2 * i + 1 else 2 * i];
    } else {
      assert cur == level[0];
    }
  }

  /** An accepted proof for a state's root that is as long as the tree is high tells the truth about its key. */
  lemma ProofsAreSound(H: Hasher, s: State, p: Proof)
    requires Accepted(H, p) && p.root == StateRootOf(H, s)
    requires |p.path| == Height(|s|)
    requires NulFreeKeys(s) && NulFree(p.key)
    requires CollisionFree(H, CheckInputs(H, p) + HashedFor(H, s))
    ensures p.key in s && s[p.key] == p.value
  {
    KeysAreKeys(s);
    var leaf := Leaf(p.key, p.value);
    var ls := Leaves(s);
    HexInjective(Fold(H, H(leaf), p.path).value, RootDigest(H, ls));
    assert leaf in CheckInputs(H, p) && |leaf| > 0;
    assert |s| == 0 ==> [] in HashedFor(H, s) && H(leaf) == H([]);
    var level := LeafLevel(H, ls);
    FoldIsSound(H, H(leaf), p.path, level);
    var i :| 0 <= i < |level| && level[i] == H(leaf);
    assert ls[i] in ls;
    assert ls[i] == leaf;
    LeafSplits(Keys(s)[i], s[Keys(s)[i]], p.key, p.value);
  }

  // ----- the height condition cannot be dropped -----

  /** The node string that is hashed into the root. */
  function TopString(H: Hasher, level: seq<Digest>): (r: ByteString)
    requires |level| > 1
    ensures H(r) == Top(H, level)
    decreases |level|
  {
    var up := Parents(H, level);
    if |up| == 1 then Pair(level, 0) else TopString(H, up)
  }

  /** Under any hash: when the topmost node string of a tree reads as key, NUL and value, the state with that one
      key has the same root, and its proof with an empty path is accepted for the root of the taller tree. */
  lemma HeightConditionIsNeeded(H: Hasher, t: State, key: ByteString, value: ByteString)
    requires |LeafLevel(H, Leaves(t))| > 1 && Leaf(key, value) == TopString(H, LeafLevel(H, Leaves(t)))
    ensures var s: State := map[key := value];
            var p := ProofOf(H, s, key);
            && s != t && StateRootOf(H, s) == StateRootOf(H, t)
            && Accepted(H, p) && p.root == StateRootOf(H, t)
            && p.key == key && p.value == value && |p.path| == 0
  {
    var s: State := map[key := value];
    assert |s| == 1;
    KeysAreKeys(t);
    ProofsAreComplete(H, s, key);
    OneKey(s, key);
    var leaf := Leaf(key, value);
    assert LeafLevel(H, [leaf]) == [H(leaf)];
  }

  lemma OneKey(s: State, key: ByteString)
    requires s.Keys == {key}
    ensures Keys(s) == [key] && Leaves(s) == [Leaf(key, s[key])]
  {
    ByteOrder();
    SortedEnumeration([key], s.Keys, AtMost);
    assert Sort([key], AtMost) == [key];
  }

  // ----- a hash under which that happens without a collision -----

  function Pad(x: ByteString): Digest {
    seq<byte>(32, i requires 0 <= i => if i < |x| then x[i] else 0)
  }

  /** A toy hash that keeps short strings apart. */
  function ToyHash(x: ByteString): Digest {
    if |x| == 64 then Pad([7]) else Pad(x)
  }

  /** s holds one value that turns the leaf of key 1 into the node string over the two leaves of t. */
  ghost predicate Toys(s: State, t: State, n: ByteString) {
    && n == Cat(ToyHash([1, 0]), ToyHash([2, 0]))
    && s.Keys == {[1]} && Leaf([1], s[[1]]) == n
    && t.Keys == {[1], [2]} && t[[1]] == [] && t[[2]] == []
  }

  lemma ToyLeaves(s: State, t: State, n: ByteString)
    requires Toys(s, t, n)
    ensures Leaves(s) == [n] && Leaves(t) == [[1, 0], [2, 0]]
  {
    OneKey(s, [1]);
    TwoKeys(t, [1], [2]);
    assert Leaf([1], []) == [1, 0] && Leaf([2], []) == [2, 0];
  }

  lemma TwoKeys(s: State, a: ByteString, b: ByteString)
    requires s.Keys == {a, b} && a != b && AtMost(a, b)
    ensures Leaves(s) == [Leaf(a, s[a]), Leaf(b, s[b])]
  {
    hide AtMost, Leaf;
    ByteOrder();
    AtMostTotal(a, a);
    AtMostTotal(b, b);
    SortedEnumeration([a, b], s.Keys, AtMost);
    assert Sort([b], AtMost) == [b];
    assert [a, b][1..] == [b];
    assert Sort([a, b], AtMost) == [a, b];
    assert Keys(s) == [a, b];
  }

  lemma ToyRoots(s: State, t: State, a: ByteString, b: ByteString, n: ByteString)
    requires a == [1, 0] && b == [2, 0] && n == Cat(ToyHash(a), ToyHash(b))
    requires Leaves(s) == [n] && Leaves(t) == [a, b]
    ensures HashedFor(ToyHash, s) == {n} && HashedFor(ToyHash, t) == {a, b, n}
    ensures StateRootOf(ToyHash, s) == StateRootOf(ToyHash, t)
  {
    var level := LeafLevel(ToyHash, [a, b]);
    assert level == [ToyHash(a), ToyHash(b)];
    assert Pair(level, 0) == n;
    assert Pairs(level) == {n};
    assert Parents(ToyHash, level) == [ToyHash(n)] == LeafLevel(ToyHash, [n]);
    assert NodeInputs(ToyHash, level) == {n};
    assert (set l | l in [n]) == {n};
    assert (set l | l in [a, b]) == {a, b};
  }

  lemma ToyHashIsSplit(a: ByteString, b: ByteString, n: ByteString)
    requires a == [1, 0] && b == [2, 0] && |n| == 64
    ensures CollisionFree(ToyHash, {a, b, n})
  {
    assert ToyHash(a)[0] == 1 && ToyHash(b)[0] == 2 && ToyHash(n)[0] == 7;
  }

  lemma ToysExist() returns (s: State, t: State, n: ByteString)
    ensures Toys(s, t, n)
  {
    n := Cat(ToyHash([1, 0]), ToyHash([2, 0]));
    assert n[0] == 1 && n[1] == 0;
    s, t := map[[1] := n[2..]], map[[1] := [], [2] := []];
    assert Leaf([1], n[2..]) == n;
  }

  /** Two NUL-free states of different heights that share a root although nothing that was hashed collides, and an
      accepted proof of the wrong length for a value that the state does not hold. */
  lemma SharedRootExample() returns (s: State, t: State, p: Proof)
    ensures NulFreeKeys(s) && NulFreeKeys(t) && s != t
    ensures CollisionFree(ToyHash, HashedFor(ToyHash, s) + HashedFor(ToyHash, t))
    ensures StateRootOf(ToyHash, s) == StateRootOf(ToyHash, t)
    ensures Accepted(ToyHash, p) && p.root == StateRootOf(ToyHash, t) && p.key in t && p.value != t[p.key]
  {
    var n;
    s, t, n := ToysExist();
    ToyLeaves(s, t, n);
    ToyRoots(s, t, [1, 0], [2, 0], n);
    ToyHashIsSplit([1, 0], [2, 0], n);
    p := ProofOf(ToyHash, s, [1]);
    ProofsAreComplete(ToyHash, s, [1]);
  }

  /** Under any hash, a NUL in a key lets two different one-key states have one leaf. */
  lemma NulConditionIsNeeded(H: Hasher) returns (s: State, t: State)
    ensures s != t && |s| == |t| == 1 && StateRootOf(H, s) == StateRootOf(H, t)
  {
    var long, short, nul: ByteString := [1, 0], [1], [0];
    s, t := map[long := []], map[short := nul];
    ByteOrder();
    SortedEnumeration([long], s.Keys, AtMost);
    SortedEnumeration([short], t.Keys, AtMost);
    assert Keys(s) == [long] && Keys(t) == [short];
    assert Leaf(long, []) == Leaf(short, nul);
    assert Leaves(s) == Leaves(t);
    assert long in s && long !in t;
  }
}
