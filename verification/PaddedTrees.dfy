/** What a root binds without any condition on keys: the leaves, padded as the tree pads them. */
module PaddedTrees {
  import opened ByteStrings
  import opened Merkle
  import opened MerkleBinding

  /** The positions that fill a whole tree of the height: where a level ends early, its last node stands twice. */
  function Places(n: nat): (r: seq<nat>)
    ensures forall j | 0 <= j < |r| :: r[j] < n
    decreases n
  {
    if n <= 1 then seq(n, _ => 0) else Halved(n, Places((n + 1) / 2))
  }

  /** Each place of the next level becomes its two children. */
  function Halved(n: nat, up: seq<nat>): (r: seq<nat>)
    requires forall j | 0 <= j < |up| :: 2 * up[j] < n
    ensures |r| == 2 * |up| && forall j | 0 <= j < |r| :: r[j] < n
  {
    seq(2 * |up|, j requires 0 <= j < 2 * |up| => Child(n, up[j / 2], j % 2))
  }

  function Child(n: nat, i: nat, bit: nat): (r: nat)
    requires 2 * i < n
    ensures r < n
  {
    if bit == 1 && 2 * i + 1 < n then 2 * i + 1 else 2 * i
  }

  function Padded<T>(xs: seq<T>): (r: seq<T>)
    ensures |r| == |Places(|xs|)|
  {
    seq(|Places(|xs|)|, j requires 0 <= j < |Places(|xs|)| => xs[Places(|xs|)[j]])
  }

  function Power(n: nat): nat { if n == 0 then 1 else 2 * Power(n - 1) }

  /** A padded list has one element for every leaf of a whole tree. */
  lemma {:induction false} PaddedSize(n: nat)
    requires n > 0
    ensures |Places(n)| == Power(Height(n))
    decreases n
  {
    if n > 1 { PaddedSize((n + 1) / 2); }
  }

  lemma PlacesBelow(n: nat, j: nat)
    requires n > 1 && j < |Places((n + 1) / 2)|
    ensures |Places(n)| == 2 * |Places((n + 1) / 2)| && 2 * Places((n + 1) / 2)[j] < n
    ensures Places(n)[2 * j] == 2 * Places((n + 1) / 2)[j]
    ensures Places(n)[2 * j + 1] == Child(n, Places((n + 1) / 2)[j], 1)
  {
    var up := Places((n + 1) / 2);
    assert 2 * up[j] < n;
    assert Places(n) == Halved(n, up);
    hide Places;
    assert 2 * j / 2 == j && 2 * j % 2 == 0 && (2 * j + 1) / 2 == j && (2 * j + 1) % 2 == 1;
  }

  /** The two children of a padded parent are the halves of the string that was hashed into it. */
  lemma PaddedChildren(H: Hasher, level: seq<Digest>, j: nat)
    requires |level| > 1 && j < |Padded(Parents(H, level))|
    ensures |Padded(level)| == 2 * |Padded(Parents(H, level))|
    ensures var i := Places(|Parents(H, level)|)[j];
            && 2 * i < |level| && Pair(level, i) in Pairs(level)
            && Padded(Parents(H, level))[j] == H(Pair(level, i))
            && Pair(level, i) == Cat(Padded(level)[2 * j], Padded(level)[2 * j + 1])
  {
    hide Places, Pairs, Cat;
    PlacesBelow(|level|, j);
    var i := Places(|Parents(H, level)|)[j];
    assert Padded(level)[2 * j] == level[2 * i];
    assert Padded(level)[2 * j + 1] == level[Child(|level|, i, 1)];
  }

  lemma HalvesAgree(a: Digest, b: Digest, c: Digest, d: Digest)
    ensures Cat(a, b) == Cat(c, d) <==> a == c && b == d
  {
    assert Cat(a, b)[..32] == a && Cat(a, b)[32..] == b;
    assert Cat(c, d)[..32] == c && Cat(c, d)[32..] == d;
  }

  lemma SameUp(H: Hasher, a: seq<Digest>, b: seq<Digest>, j: nat)
    requires |a| > 1 && |b| > 1 && CollisionFree(H, Pairs(a) + Pairs(b))
    requires j < |Padded(Parents(H, a))| == |Padded(Parents(H, b))|
    ensures |Padded(a)| == |Padded(b)| == 2 * |Padded(Parents(H, a))|
    ensures Padded(Parents(H, a))[j] == Padded(Parents(H, b))[j]
       <==> Padded(a)[2 * j] == Padded(b)[2 * j] && Padded(a)[2 * j + 1] == Padded(b)[2 * j + 1]
  {
    PaddedChildren(H, a, j);
    PaddedChildren(H, b, j);
    hide Padded, Places, Parents, Pair, Pairs, Cat;
    HalvesAgree(Padded(a)[2 * j], Padded(a)[2 * j + 1], Padded(b)[2 * j], Padded(b)[2 * j + 1]);
  }

  /** One level: padded parents agree exactly when the padded children do. */
  lemma ParentsAgree(H: Hasher, a: seq<Digest>, b: seq<Digest>)
    requires |a| > 1 && |b| > 1 && Height(|a|) == Height(|b|) && CollisionFree(H, Pairs(a) + Pairs(b))
    ensures Padded(Parents(H, a)) == Padded(Parents(H, b)) <==> Padded(a) == Padded(b)
  {
    ParentSizes(a, b);
    hide Padded, Places, Pairs, CollisionFree, Height, Power;
    var up, up' := Parents(H, a), Parents(H, b);
    SameSize(up, up');
    PaddedDoubles(H, a);
    PaddedDoubles(H, b);
    hide Parents;
    forall j | 0 <= j < |Padded(up)|
      ensures Padded(up)[j] == Padded(up')[j]
         <==> Padded(a)[2 * j] == Padded(b)[2 * j] && Padded(a)[2 * j + 1] == Padded(b)[2 * j + 1]
    {
      SameUp(H, a, b, j);
    }
    PairwiseSame(Padded(up), Padded(up'), Padded(a), Padded(b));
  }

  lemma ParentSizes<T>(a: seq<T>, b: seq<T>)
    requires |a| > 1 && |b| > 1 && Height(|a|) == Height(|b|)
    ensures Height((|a| + 1) / 2) == Height((|b| + 1) / 2)
  {}

  lemma PairwiseSame<T>(up: seq<T>, up': seq<T>, down: seq<T>, down': seq<T>)
    requires |up| == |up'| && |down| == |down'| == 2 * |up|
    requires forall j | 0 <= j < |up| ::
               up[j] == up'[j] <==> down[2 * j] == down'[2 * j] && down[2 * j + 1] == down'[2 * j + 1]
    ensures up == up' <==> down == down'
  {
    if up == up' {
      forall k | 0 <= k < |down| ensures down[k] == down'[k] {
        assert up[k / 2] == up'[k / 2];
        assert k == 2 * (k / 2) || k == 2 * (k / 2) + 1;
      }
    }
  }

  lemma SameSize<T>(xs: seq<T>, ys: seq<T>)
    requires |xs| > 0 && |ys| > 0 && Height(|xs|) == Height(|ys|)
    ensures |Padded(xs)| == |Padded(ys)|
  {
    hide Padded, Places, Height, Power;
    PaddedSize(|xs|);
    PaddedSize(|ys|);
  }

  lemma PaddedDoubles(H: Hasher, level: seq<Digest>)
    requires |level| > 1
    ensures |Padded(level)| == 2 * |Padded(Parents(H, level))|
  {
    assert Places(|level|) == Halved(|level|, Places((|level| + 1) / 2));
  }

  /** Two trees of one height have one top exactly when their bottom levels are equal once padded. */
  lemma {:induction false} TopsAgreePadded(H: Hasher, a: seq<Digest>, b: seq<Digest>)
    requires |a| > 0 && |b| > 0 && Height(|a|) == Height(|b|)
    requires CollisionFree(H, NodeInputs(H, a) + NodeInputs(H, b))
    ensures Top(H, a) == Top(H, b) <==> Padded(a) == Padded(b)
    decreases |a|
  {
    if |a| == 1 {
      OnePlace(a);
      OnePlace(b);
    } else {
      var inputs := NodeInputs(H, a) + NodeInputs(H, b);
      TopOfParents(H, a);
      TopOfParents(H, b);
      hide Padded, Parents, Top, NodeInputs, CollisionFree;
      FewerInputs(H, NodeInputs(H, Parents(H, a)) + NodeInputs(H, Parents(H, b)), inputs);
      FewerInputs(H, Pairs(a) + Pairs(b), inputs);
      TopsAgreePadded(H, Parents(H, a), Parents(H, b));
      ParentsAgree(H, a, b);
    }
  }

  lemma TopOfParents(H: Hasher, level: seq<Digest>)
    requires |level| > 1
    ensures Top(H, level) == Top(H, Parents(H, level))
    ensures NodeInputs(H, level) == Pairs(level) + NodeInputs(H, Parents(H, level))
  {}

  lemma OnePlace<T>(xs: seq<T>)
    requires |xs| <= 1
    ensures Padded(xs) == xs
  {}

  lemma {:induction false} PlacesCover(n: nat, i: nat) returns (j: nat)
    requires i < n
    ensures j < |Places(n)| && Places(n)[j] == i
    decreases n
  {
    hide Places;
    if n == 1 {
      j := 0;
      OnlyPlace();
    } else {
      var k := PlacesCover((n + 1) / 2, i / 2);
      PlacesBelow(n, k);
      assert i % 2 == 1 ==> Child(n, i / 2, 1) == i;
      j := 2 * k + i % 2;
    }
  }

  lemma OnlyPlace()
    ensures |Places(1)| == 1 && Places(1)[0] == 0
  {}

  /** Among lists of one length, the padded list determines the list. */
  lemma PaddedBinds<T>(xs: seq<T>, ys: seq<T>)
    requires |xs| == |ys| && Padded(xs) == Padded(ys)
    ensures xs == ys
  {
    hide Places;
    forall i | 0 <= i < |xs| ensures xs[i] == ys[i] {
      var j := PlacesCover(|xs|, i);
      assert Padded(xs)[j] == xs[i] && Padded(ys)[j] == ys[i];
    }
  }

  // ----- the tree from the top -----

  /** The hash of a whole tree over a list of 2^n nodes, halved from the top down. */
  function Whole(H: Hasher, xs: seq<Digest>, n: nat): Digest
    requires |xs| == Power(n)
  {
    if n == 0 then xs[0]
    else
      var left: ByteString := Whole(H, xs[..|xs| / 2], n - 1);
      var right: ByteString := Whole(H, xs[|xs| / 2..], n - 1);
      H(left + right)
  }

  ghost predicate HashesPairs(H: Hasher, xs: seq<Digest>, ys: seq<Digest>) {
    |xs| == 2 * |ys| && forall j | 0 <= j < |ys| :: ys[j] == H(Cat(xs[2 * j], xs[2 * j + 1]))
  }

  lemma PairsOfHalves(H: Hasher, xs: seq<Digest>, ys: seq<Digest>, m: nat)
    requires HashesPairs(H, xs, ys) && m <= |ys|
    ensures HashesPairs(H, xs[..2 * m], ys[..m]) && HashesPairs(H, xs[2 * m..], ys[m..])
  {
    hide Cat;
    forall j | 0 <= j < |ys| - m ensures ys[m..][j] == H(Cat(xs[2 * m..][2 * j], xs[2 * m..][2 * j + 1])) {
      assert ys[m + j] == H(Cat(xs[2 * (m + j)], xs[2 * (m + j) + 1]));
    }
  }

  /** Hashing neighbours first changes nothing about it. */
  lemma {:induction false} WholeOfPairs(H: Hasher, xs: seq<Digest>, ys: seq<Digest>, n: nat)
    requires |ys| == Power(n) && |xs| == Power(n + 1) && HashesPairs(H, xs, ys)
    ensures Whole(H, xs, n + 1) == Whole(H, ys, n)
  {
    hide HashesPairs;
    if n == 0 {
      assert Power(1) == 2 * Power(0);
      OnePair(H, xs, ys);
    } else {
      var m := |ys| / 2;
      assert |ys| == 2 * m && |xs| / 2 == 2 * m && Power(n + 1) == 2 * Power(n);
      PairsOfHalves(H, xs, ys, m);
      WholeOfPairs(H, xs[..2 * m], ys[..m], n - 1);
      WholeOfPairs(H, xs[2 * m..], ys[m..], n - 1);
    }
  }

  lemma OnePair(H: Hasher, xs: seq<Digest>, ys: seq<Digest>)
    requires |ys| == 1 && |xs| == 2 && HashesPairs(H, xs, ys)
    ensures Whole(H, xs, 1) == Whole(H, ys, 0)
  {
    assert ys[0] == H(Cat(xs[2 * 0], xs[2 * 0 + 1]));
    assert Whole(H, xs[..1], 0) == xs[0] && Whole(H, xs[1..], 0) == xs[1];
  }

  /** The level loop, bottom up with its odd last nodes, computes the hash of the whole tree over the padded
      level. */
  lemma {:induction false} TopIsWhole(H: Hasher, level: seq<Digest>)
    requires |level| > 0
    ensures |Padded(level)| == Power(Height(|level|))
    ensures Top(H, level) == Whole(H, Padded(level), Height(|level|))
    decreases |level|
  {
    hide Padded, Places, Whole, Parents, Top, HashesPairs;
    PaddedSize(|level|);
    if |level| == 1 {
      OneNode(H, level);
    } else {
      TopIsWhole(H, Parents(H, level));
      TopOfParents(H, level);
      PaddedPairs(H, level);
      WholeOfPairs(H, Padded(level), Padded(Parents(H, level)), Height(|level|) - 1);
    }
  }

  lemma OneNode(H: Hasher, level: seq<Digest>)
    requires |level| == 1
    ensures |Padded(level)| == Power(0) && Top(H, level) == Whole(H, Padded(level), 0)
  {
    OnePlace(level);
  }

  lemma PaddedPairs(H: Hasher, level: seq<Digest>)
    requires |level| > 1
    ensures HashesPairs(H, Padded(level), Padded(Parents(H, level)))
  {
    hide Padded, Places, Parents, Cat;
    PaddedDoubles(H, level);
    forall j | 0 <= j < |Padded(Parents(H, level))|
      ensures Padded(Parents(H, level))[j] == H(Cat(Padded(level)[2 * j], Padded(level)[2 * j + 1]))
    {
      PaddedChildren(H, level, j);
    }
  }

  // ----- states -----

  lemma PaddedLeaves(H: Hasher, ls: seq<ByteString>, lt: seq<ByteString>)
    requires CollisionFree(H, (set l | l in ls) + (set l | l in lt))
    ensures Padded(LeafLevel(H, ls)) == Padded(LeafLevel(H, lt)) <==> Padded(ls) == Padded(lt)
  {
    PaddedLevel(H, ls);
    PaddedLevel(H, lt);
    PaddedFrom(ls);
    PaddedFrom(lt);
    hide Padded, Places, LeafLevel;
    if Padded(LeafLevel(H, ls)) == Padded(LeafLevel(H, lt)) {
      assert |Padded(ls)| == |Padded(LeafLevel(H, ls))| == |Padded(lt)|;
      forall j | 0 <= j < |Padded(ls)| ensures Padded(ls)[j] == Padded(lt)[j] {
        assert H(Padded(ls)[j]) == Padded(LeafLevel(H, ls))[j] == H(Padded(lt)[j]);
      }
    }
  }

  lemma PaddedLevel(H: Hasher, ls: seq<ByteString>)
    ensures |Padded(LeafLevel(H, ls))| == |Padded(ls)|
    ensures forall j | 0 <= j < |Padded(ls)| :: Padded(LeafLevel(H, ls))[j] == H(Padded(ls)[j])
  {}

  lemma PaddedFrom<T>(xs: seq<T>)
    ensures forall j | 0 <= j < |Padded(xs)| :: Padded(xs)[j] in xs
  {}

  /** Two lists of leaves with trees of one height share a root exactly when they are equal once padded. */
  lemma RootsAgreePadded(H: Hasher, ls: seq<ByteString>, lt: seq<ByteString>)
    requires |ls| > 0 && |lt| > 0 && Height(|ls|) == Height(|lt|)
    requires CollisionFree(H, Hashed(H, ls) + Hashed(H, lt))
    ensures RootHex(H, ls) == RootHex(H, lt) <==> Padded(ls) == Padded(lt)
  {
    hide Padded, Height, CollisionFree, LeafLevel, NodeInputs, Top, HexEncode;
    var a, b, all := LeafLevel(H, ls), LeafLevel(H, lt), Hashed(H, ls) + Hashed(H, lt);
    FewerInputs(H, NodeInputs(H, a) + NodeInputs(H, b), all);
    FewerInputs(H, (set l | l in ls) + (set l | l in lt), all);
    TopsAgreePadded(H, a, b);
    PaddedLeaves(H, ls, lt);
    if RootHex(H, ls) == RootHex(H, lt) { HexInjective(Top(H, a), Top(H, b)); }
  }

  /** Whatever their keys: two states with trees of one height share a root exactly when their leaves are equal once
      padded. */
  lemma PaddedLeavesAgree(H: Hasher, s: State, t: State)
    requires Height(|s|) == Height(|t|) && CollisionFree(H, HashedFor(H, s) + HashedFor(H, t))
    ensures StateRootOf(H, s) == StateRootOf(H, t) <==> Padded(Leaves(s)) == Padded(Leaves(t))
  {
    RootsAreDigests(H, s, t);
    hide Padded, Height, HashedFor, CollisionFree, Leaves, LeafLevel, NodeInputs, RootDigest, StateRootOf, Top;
    var ls, lt, all := Leaves(s), Leaves(t), HashedFor(H, s) + HashedFor(H, t);
    PaddedCounts(s);
    PaddedCounts(t);
    if |s| == 0 && |t| == 0 {
    } else if |s| == 0 {
      NothingHashed(H, s);
      FewerInputs(H, {[]} + HashedFor(H, t), all);
      EmptyRoot(H, t);
    } else if |t| == 0 {
      NothingHashed(H, t);
      FewerInputs(H, {[]} + HashedFor(H, s), all);
      EmptyRoot(H, s);
    } else {
      HashedParts(H, s);
      HashedParts(H, t);
      var a, b := LeafLevel(H, ls), LeafLevel(H, lt);
      FewerInputs(H, NodeInputs(H, a) + NodeInputs(H, b), all);
      FewerInputs(H, (set l | l in ls) + (set l | l in lt), all);
      TopsAgreePadded(H, a, b);
      PaddedLeaves(H, ls, lt);
    }
  }

  lemma RootsAreDigests(H: Hasher, s: State, t: State)
    ensures StateRootOf(H, s) == StateRootOf(H, t) <==> RootDigest(H, Leaves(s)) == RootDigest(H, Leaves(t))
  {
    hide RootDigest, Leaves, HexEncode;
    if StateRootOf(H, s) == StateRootOf(H, t) { HexInjective(RootDigest(H, Leaves(s)), RootDigest(H, Leaves(t))); }
  }

  lemma PaddedCounts(s: State)
    ensures (|s| == 0 <==> Padded(Leaves(s)) == []) && (|s| == 0 ==> Leaves(s) == [])
  {
    KeysAreKeys(s);
    hide Keys;
    if |s| > 0 {
      PaddedSize(|s|);
      PowerIsPositive(Height(|s|));
    }
  }

  lemma PowerIsPositive(n: nat)
    ensures Power(n) > 0
  {}

  lemma NothingHashed(H: Hasher, s: State)
    requires Leaves(s) == []
    ensures HashedFor(H, s) == {[]} && RootDigest(H, Leaves(s)) == H([])
  {}
}
