/** The Merkle tree over a key/value state, and the proofs it hands out. */
module Merkle {
  import opened ByteStrings
  import opened Options
  import opened Sorting

  type Digest = d: ByteString | |d| == 32 witness seq(32, _ => 0)
  /** SHA-256 stands for any function with 32-byte results. */
  type Hasher = ByteString -> Digest
  type State = map<ByteString, ByteString>

  // ----- the tree -----

  function Cat(a: ByteString, b: ByteString): ByteString { a + b }

  /** The bytes hashed into parent i: two neighbours, or the last node twice. */
  function Pair(level: seq<Digest>, i: nat): ByteString
    requires 2 * i < |level|
  {
    Cat(level[2 * i], level[if 2 * i + 1 < |level| then 2 * i + 1 else 2 * i])
  }

  function Parents(H: Hasher, level: seq<Digest>): (r: seq<Digest>)
    ensures |r| == (|level| + 1) / 2
  {
    seq<Digest>((|level| + 1) / 2, i requires 0 <= i < (|level| + 1) / 2 => H(Pair(level, i)))
  }

  function Top(H: Hasher, level: seq<Digest>): Digest
    requires |level| > 0
    decreases |level|
  {
    if |level| == 1 then level[0] else Top(H, Parents(H, level))
  }

  /** The number of halvings n -> (n+1)/2 down to one node. */
  function Height(n: nat): nat {
    if n <= 1 then 0 else 1 + Height((n + 1) / 2)
  }

  function LeafLevel(H: Hasher, leaves: seq<ByteString>): (r: seq<Digest>)
    ensures |r| == |leaves|
  {
    seq<Digest>(|leaves|, i requires 0 <= i < |leaves| => H(leaves[i]))
  }

  function RootDigest(H: Hasher, leaves: seq<ByteString>): Digest {
    if |leaves| == 0 then H([]) else Top(H, LeafLevel(H, leaves))
  }

  function RootHex(H: Hasher, leaves: seq<ByteString>): ByteString {
    HexEncode(RootDigest(H, leaves))
  }

  function HashHex(H: Hasher, b: ByteString): ByteString { HexEncode(H(b)) }

  method HashLeaves(H: Hasher, leaves: seq<ByteString>) returns (hs: seq<Digest>)
    ensures hs == LeafLevel(H, leaves)
  {
    hs := [];
    for i := 0 to |leaves|
      invariant hs == LeafLevel(H, leaves)[..i]
    {
      hs := hs + [H(leaves[i])];
    }
  }

  method NextLevel(H: Hasher, hs: seq<Digest>) returns (n: seq<Digest>)
    ensures n == Parents(H, hs)
  {
    n := [];
    var i := 0;
    while i < |hs|
      invariant i % 2 == 0 && i <= |hs| + 1
      invariant |n| == i / 2 && n == Parents(H, hs)[..i / 2]
    {
      var r := hs[i];
      if i + 1 < |hs| { r := hs[i + 1]; }
      assert Cat(hs[i], r) == Pair(hs, i / 2);
      assert Parents(H, hs)[i / 2] == H(Cat(hs[i], r));
      n := n + [H(Cat(hs[i], r))];
      i := i + 2;
    }
  }

  method Root(H: Hasher, leaves: seq<ByteString>) returns (r: ByteString)
    ensures r == RootHex(H, leaves)
  {
    if |leaves| == 0 { return HashHex(H, []); }
    var hs := HashLeaves(H, leaves);
    while |hs| > 1
      invariant |hs| > 0 && Top(H, hs) == RootDigest(H, leaves)
      decreases |hs|
    {
      hs := NextLevel(H, hs);
    }
    r := HexEncode(hs[0]);
  }

  // ----- state roots -----

  function Leaf(key: ByteString, value: ByteString): ByteString { key + [0] + value }

  function LeavesAt(s: State, ks: seq<ByteString>): (r: seq<ByteString>)
    requires forall k | k in ks :: k in s
    ensures |r| == |ks|
  {
    seq(|ks|, i requires 0 <= i < |ks| => Leaf(ks[i], s[ks[i]]))
  }

  ghost function Keys(s: State): seq<ByteString> { InOrder(s.Keys, AtMost) }

  lemma KeysAreKeys(s: State)
    ensures Ascending(Keys(s), AtMost)
    ensures forall k :: k in Keys(s) <==> k in s
    ensures |Keys(s)| == |s|
    ensures forall i, j | 0 <= i < j < |Keys(s)| :: Keys(s)[i] != Keys(s)[j]
  {
    ByteOrder();
    InOrderSorts(s.Keys, AtMost);
  }

  /** The keys of a state are strictly ascending as Go strings. */
  lemma KeysAscend(s: State, i: nat, j: nat)
    requires i < j < |Keys(s)|
    ensures var a, b := Keys(s)[i], Keys(s)[j];
            a < b || exists n :: 0 <= n < |a| && n < |b| && a[..n] == b[..n] && a[n] < b[n]
  {
    KeysAreKeys(s);
    AtMostExactly(Keys(s)[i], Keys(s)[j]);
  }

  ghost function Leaves(s: State): seq<ByteString> {
    KeysAreKeys(s);
    LeavesAt(s, Keys(s))
  }

  ghost function StateRootOf(H: Hasher, s: State): ByteString { RootHex(H, Leaves(s)) }

  /** The part of the state below a key prefix. */
  function Below(s: State, p: ByteString): State { map k | k in s && p <= k :: s[k] }

  ghost function PrefixRootOf(H: Hasher, s: State, p: ByteString): ByteString { StateRootOf(H, Below(s, p)) }

  /** sort.Strings over the keys below a prefix, gathered in any order. */
  method SortedKeys(s: State, p: ByteString) returns (ks: seq<ByteString>)
    ensures ks == Keys(Below(s, p))
    ensures forall k :: k in ks <==> k in s && p <= k
    ensures forall i, j | 0 <= i < j < |ks| ::
              || ks[i] < ks[j]
              || exists n :: 0 <= n < |ks[i]| && n < |ks[j]| && ks[i][..n] == ks[j][..n] && ks[i][n] < ks[j][n]
  {
    hide Keys, AtMost, Sort;
    ks := [];
    var todo := s.Keys;
    ghost var wanted := Below(s, p).Keys;
    while todo != {}
      invariant todo <= s.Keys
      invariant multiset(ks) == multiset(wanted - todo)
    {
      var k :| k in todo;
      if |p| == 0 || p <= k {
        assert wanted - (todo - {k}) == (wanted - todo) + {k};
        ks := ks + [k];
      } else {
        assert wanted - (todo - {k}) == wanted - todo;
      }
      todo := todo - {k};
    }
    assert wanted - todo == wanted;
    KeysAreSorted(Below(s, p), ks);
    ks := Sort(ks, AtMost);
    KeysBelow(s, p);
  }

  lemma KeysAreSorted(s: State, ks: seq<ByteString>)
    requires multiset(ks) == multiset(s.Keys)
    ensures Sort(ks, AtMost) == Keys(s)
  {
    ByteOrder();
    SortedEnumeration(ks, s.Keys, AtMost);
  }

  lemma KeysBelow(s: State, p: ByteString)
    ensures var ks := Keys(Below(s, p));
            && (forall k :: k in ks <==> k in s && p <= k)
            && forall i, j | 0 <= i < j < |ks| ::
                 || ks[i] < ks[j]
                 || exists n :: 0 <= n < |ks[i]| && n < |ks[j]| && ks[i][..n] == ks[j][..n] && ks[i][n] < ks[j][n]
  {
    var ks := Keys(Below(s, p));
    KeysAreKeys(Below(s, p));
    hide Keys;
    forall i, j | 0 <= i < j < |ks|
      ensures ks[i] < ks[j]
           || exists n :: 0 <= n < |ks[i]| && n < |ks[j]| && ks[i][..n] == ks[j][..n] && ks[i][n] < ks[j][n]
    {
      KeysAscend(Below(s, p), i, j);
    }
  }

  /** What is hashed into the leaves of a state: each key in order, a NUL, and its value. */
  lemma LeavesAre(s: State)
    ensures |Leaves(s)| == |Keys(s)| == |s|
    ensures forall i | 0 <= i < |s| :: Keys(s)[i] in s && Leaves(s)[i] == Keys(s)[i] + [0] + s[Keys(s)[i]]
  {
    KeysAreKeys(s);
  }

  method LeafBytes(s: State, ks: seq<ByteString>) returns (leaves: seq<ByteString>)
    requires forall k | k in ks :: k in s
    ensures leaves == LeavesAt(s, ks)
  {
    leaves := [];
    for i := 0 to |ks|
      invariant leaves == LeavesAt(s, ks)[..i]
    {
      leaves := leaves + [ks[i] + [0] + s[ks[i]]];
    }
  }

  method PrefixRoot(H: Hasher, s: State, p: ByteString) returns (r: ByteString)
    ensures r == PrefixRootOf(H, s, p)
  {
    var ks := SortedKeys(s, p);
    KeysAreKeys(Below(s, p));
    var leaves := LeafBytes(s, ks);
    assert leaves == Leaves(Below(s, p));
    r := Root(H, leaves);
  }

  lemma BelowEverything(s: State)
    ensures Below(s, []) == s
  {}

  method StateRoot(H: Hasher, s: State) returns (r: ByteString)
    ensures r == StateRootOf(H, s)
  {
    BelowEverything(s);
    r := PrefixRoot(H, s, []);
  }

  // ----- inclusion proofs -----

  datatype Step = Step(hash: ByteString, left: bool)
  datatype Proof = Proof(key: ByteString, value: ByteString, present: bool, leafHash: ByteString,
                         root: ByteString, index: nat, total: nat, path: seq<Step>)

  /** pos ^ 1, or pos itself where the level ends there. */
  function Sibling(n: nat, pos: nat): nat
    requires pos < n
  {
    if pos % 2 == 1 then pos - 1 else if pos + 1 < n then pos + 1 else pos
  }

  function Path(H: Hasher, level: seq<Digest>, pos: nat): seq<Step>
    requires pos < |level|
    decreases |level|
  {
    if |level| == 1 then []
    else
      var sib := Sibling(|level|, pos);
      [Step(HexEncode(level[sib]), sib < pos)] + Path(H, Parents(H, level), pos / 2)
  }

  /** One step of the check; None when the sibling is not hexadecimal. */
  function Climb(cur: Digest, st: Step): Option<ByteString> {
    match HexDecode(st.hash)
    case None => None
    case Some(sib) => Some(if st.left then Cat(sib, cur) else Cat(cur, sib))
  }

  function Fold(H: Hasher, cur: Digest, path: seq<Step>): Option<Digest>
    decreases |path|
  {
    if |path| == 0 then Some(cur)
    else
      match Climb(cur, path[0])
      case None => None
      case Some(x) => Fold(H, H(x), path[1..])
  }

  predicate Accepted(H: Hasher, p: Proof) {
    var cur := H(Leaf(p.key, p.value));
    && p.present
    && HexEncode(cur) == p.leafHash
    && var top := Fold(H, cur, p.path);
       top.Some? && HexEncode(top.value) == p.root
  }

  method VerifyProof(H: Hasher, p: Proof) returns (ok: bool)
    ensures ok == Accepted(H, p)
  {
    if !p.present { return false; }
    var cur: Digest := H(Leaf(p.key, p.value));
    if HexEncode(cur) != p.leafHash { return false; }
    for i := 0 to |p.path|
      invariant Fold(H, H(Leaf(p.key, p.value)), p.path) == Fold(H, cur, p.path[i..])
    {
      var st := p.path[i];
      assert p.path[i..][0] == st && p.path[i..][1..] == p.path[i + 1..];
      var sib := HexDecode(st.hash);
      if sib.None? { return false; }
      cur := H(if st.left then Cat(sib.value, cur) else Cat(cur, sib.value));
    }
    assert p.path[|p.path|..] == [];
    ok := HexEncode(cur) == p.root;
  }

  /** ds are the digests on the way up a path, each hashed from the one before and the sibling on its side. */
  ghost predicate ClimbsThrough(H: Hasher, ds: seq<Digest>, path: seq<Step>) {
    && |ds| == |path| + 1
    && forall i | 0 <= i < |path| ::
         && HexDecode(path[i].hash).Some?
         && var sib := HexDecode(path[i].hash).value;
            ds[i + 1] == if path[i].left then H(sib + ds[i]) else H(ds[i] + sib)
  }

  lemma {:induction false} FoldExactly(H: Hasher, cur: Digest, path: seq<Step>, top: Digest)
    ensures Fold(H, cur, path) == Some(top)
       <==> exists ds :: ClimbsThrough(H, ds, path) && ds[0] == cur && ds[|path|] == top
    decreases |path|
  {
    if |path| == 0 {
      assert Fold(H, cur, path) == Some(top) ==> ClimbsThrough(H, [cur], path);
    } else {
      if Climb(cur, path[0]).Some? { FoldExactly(H, H(Climb(cur, path[0]).value), path[1..], top); }
      hide HexDecode;
      if Fold(H, cur, path) == Some(top) {
        var next := H(Climb(cur, path[0]).value);
        var ds :| ClimbsThrough(H, ds, path[1..]) && ds[0] == next && ds[|path| - 1] == top;
        ClimbFirst(H, cur, ds, path);
        assert ([cur] + ds)[|path|] == top;
      }
      if ds :| ClimbsThrough(H, ds, path) && ds[0] == cur && ds[|path|] == top {
        ClimbRest(H, ds, path);
      }
    }
  }

  lemma ClimbFirst(H: Hasher, cur: Digest, ds: seq<Digest>, path: seq<Step>)
    requires |path| > 0 && ClimbsThrough(H, ds, path[1..])
    requires Climb(cur, path[0]).Some? && ds[0] == H(Climb(cur, path[0]).value)
    ensures ClimbsThrough(H, [cur] + ds, path)
  {
    hide HexDecode;
    forall i | 0 < i < |path| ensures path[i] == path[1..][i - 1] {}
  }

  lemma ClimbRest(H: Hasher, ds: seq<Digest>, path: seq<Step>)
    requires |path| > 0 && ClimbsThrough(H, ds, path)
    ensures ClimbsThrough(H, ds[1..], path[1..])
    ensures Climb(ds[0], path[0]).Some? && ds[1] == H(Climb(ds[0], path[0]).value)
  {
    hide HexDecode;
    assert ds[0 + 1] == if path[0].left then H(HexDecode(path[0].hash).value + ds[0])
                        else H(ds[0] + HexDecode(path[0].hash).value);
    forall i | 0 <= i < |path| - 1 ensures path[1..][i] == path[i + 1] && ds[1..][i + 1] == ds[i + 2] {}
  }

  /** A proof is accepted exactly when it claims presence, names the hash of its leaf, and some digests lead from that
      hash along its path to its root. */
  lemma AcceptsExactly(H: Hasher, p: Proof)
    ensures Accepted(H, p) <==>
            && p.present && p.leafHash == HexEncode(H(p.key + [0] + p.value))
            && exists ds: seq<Digest> ::
                 && |ds| == |p.path| + 1 && ds[0] == H(p.key + [0] + p.value) && HexEncode(ds[|p.path|]) == p.root
                 && forall i | 0 <= i < |p.path| ::
                      && HexDecode(p.path[i].hash).Some?
                      && ds[i + 1] == if p.path[i].left then H(HexDecode(p.path[i].hash).value + ds[i])
                                      else H(ds[i] + HexDecode(p.path[i].hash).value)
  {
    hide HexEncode, HexDecode, Fold, Leaf;
    var leaf := Leaf(p.key, p.value);
    LeafIs(p.key, p.value);
    var top := Fold(H, H(leaf), p.path);
    if top.Some? { FoldExactly(H, H(leaf), p.path, top.value); }
    if Accepted(H, p) {
      var ds :| ClimbsThrough(H, ds, p.path) && ds[0] == H(leaf) && ds[|p.path|] == top.value;
      assert HexEncode(ds[|p.path|]) == p.root;
    }
    if ds: seq<Digest> :|
        && |ds| == |p.path| + 1 && ds[0] == H(leaf) && HexEncode(ds[|p.path|]) == p.root
        && forall i | 0 <= i < |p.path| ::
             && HexDecode(p.path[i].hash).Some?
             && ds[i + 1] == if p.path[i].left then H(HexDecode(p.path[i].hash).value + ds[i])
                             else H(ds[i] + HexDecode(p.path[i].hash).value)
    {
      assert ClimbsThrough(H, ds, p.path);
      FoldExactly(H, H(leaf), p.path, ds[|p.path|]);
    }
  }

  /** sort.SearchStrings: the first position whose key is not below the wanted one. */
  function Search(ks: seq<ByteString>, key: ByteString): (r: nat)
    ensures r <= |ks|
  {
    if |ks| == 0 || AtMost(key, ks[0]) then 0 else 1 + Search(ks[1..], key)
  }

  /** It splits the keys into those below the wanted one and the others. */
  lemma {:induction false} SearchSplits(ks: seq<ByteString>, key: ByteString)
    requires Ascending(ks, AtMost)
    ensures forall i | 0 <= i < |ks| :: i < Search(ks, key) <==> !AtMost(key, ks[i])
  {
    if |ks| > 0 {
      if AtMost(key, ks[0]) {
        forall i | 0 < i < |ks| ensures AtMost(key, ks[i]) { AtMostTransitive(key, ks[0], ks[i]); }
      } else {
        SearchSplits(ks[1..], key);
        assert forall i | 0 < i < |ks| :: ks[i] == ks[1..][i - 1];
      }
    }
  }

  lemma {:induction false} SearchFinds(ks: seq<ByteString>, key: ByteString)
    requires Ascending(ks, AtMost)
    requires key in ks
    ensures Search(ks, key) < |ks| && ks[Search(ks, key)] == key
  {
    if AtMost(key, ks[0]) {
      var i :| 0 <= i < |ks| && ks[i] == key;
      AtMostTotal(ks[0], key);
      assert i != 0 ==> AtMost(ks[0], ks[i]);
    } else {
      AtMostTotal(key, key);
      SearchFinds(ks[1..], key);
    }
  }

  /** The proof the tree must yield for a key at its place in the key order. */
  ghost function ProofOf(H: Hasher, s: State, key: ByteString): Proof {
    var ks := Keys(s);
    var idx := Search(ks, key);
    if idx < |ks| && ks[idx] == key then
      KeysAreKeys(s);
      Proof(key, s[key], true, HexEncode(H(Leaf(key, s[key]))), StateRootOf(H, s), idx, |ks|,
            Path(H, LeafLevel(H, Leaves(s)), idx))
    else
      Proof(key, [], false, [], StateRootOf(H, s), idx, |ks|, [])
  }

  method StateProof(H: Hasher, s: State, key: ByteString) returns (p: Proof)
    ensures p == ProofOf(H, s, key)
  {
    BelowEverything(s);
    var ks := SortedKeys(s, []);
    KeysAreKeys(s);
    var idx := Search(ks, key);
    var root := StateRoot(H, s);
    if !(idx < |ks| && ks[idx] == key) { return Proof(key, [], false, [], root, idx, |ks|, []); }
    var leaves := LeafBytes(s, ks);
    var level := HashLeaves(H, leaves);
    var path := SiblingPath(H, level, idx);
    p := Proof(key, s[key], true, HexEncode(level[idx]), root, idx, |ks|, path);
  }

  /** The loop of StateProof that climbs the levels. */
  method SiblingPath(H: Hasher, leafLevel: seq<Digest>, idx: nat) returns (path: seq<Step>)
    requires idx < |leafLevel|
    ensures path == Path(H, leafLevel, idx)
  {
    hide HexEncode, Parents;
    path := [];
    var pos, level := idx, leafLevel;
    while |level| > 1
      invariant 0 <= pos < |level|
      invariant path + Path(H, level, pos) == Path(H, leafLevel, idx)
      decreases |level|
    {
      var sib := if pos % 2 == 0 then pos + 1 else pos - 1;
      if sib >= |level| { sib := pos; }
      var st := Step(HexEncode(level[sib]), sib < pos);
      var next := NextLevel(H, level);
      Prepended(path, st, Path(H, next, pos / 2));
      path := path + [st];
      pos := pos / 2;
      level := next;
    }
    assert path == path + Path(H, level, pos);
  }

  lemma Prepended(path: seq<Step>, st: Step, rest: seq<Step>)
    ensures path + ([st] + rest) == (path + [st]) + rest
  {}

  // ----- completeness -----

  /** The index that the directions of a path spell, lowest bit first. */
  function PathIndex(path: seq<Step>): nat {
    if |path| == 0 then 0 else (if path[0].left then 1 else 0) + 2 * PathIndex(path[1..])
  }

  lemma SiblingPair(level: seq<Digest>, pos: nat)
    requires pos < |level|
    ensures var sib := Sibling(|level|, pos);
            && sib < |level| && (sib < pos <==> pos % 2 == 1)
            && Pair(level, pos / 2) == if pos % 2 == 1 then Cat(level[sib], level[pos]) else Cat(level[pos], level[sib])
  {
    assert pos % 2 == 1 ==> 2 * (pos / 2) == pos - 1;
    assert pos % 2 == 0 ==> 2 * (pos / 2) == pos;
  }

  lemma PathStep(H: Hasher, level: seq<Digest>, pos: nat)
    requires pos < |level| && |level| > 1
    ensures var path := Path(H, level, pos);
            && |path| > 0 && path[1..] == Path(H, Parents(H, level), pos / 2)
            && path[0].left == (pos % 2 == 1)
            && Climb(level[pos], path[0]) == Some(Pair(level, pos / 2))
  {
    var sib := Sibling(|level|, pos);
    HexRoundTrip(level[sib]);
    SiblingPair(level, pos);
    hide HexEncode, HexDecode, Parents, Pair, Sibling, Cat;
    assert Path(H, level, pos) == [Step(HexEncode(level[sib]), sib < pos)] + Path(H, Parents(H, level), pos / 2);
  }

  /** Folding the path of any node of a level gives the top of the tree. */
  lemma {:induction false} PathFolds(H: Hasher, level: seq<Digest>, pos: nat)
    requires pos < |level|
    ensures Fold(H, level[pos], Path(H, level, pos)) == Some(Top(H, level))
    ensures |Path(H, level, pos)| == Height(|level|)
    ensures PathIndex(Path(H, level, pos)) == pos
    decreases |level|
  {
    if |level| > 1 {
      var up := Parents(H, level);
      PathFolds(H, up, pos / 2);
      PathStep(H, level, pos);
    }
  }

  /** Every present key has an accepted proof for the state root, every absent key a refused one; the
      path is as long as the tree is high and its directions spell the key's place in the key order. */
  lemma ProofsAreComplete(H: Hasher, s: State, key: ByteString)
    ensures var p := ProofOf(H, s, key);
            && (Accepted(H, p) <==> key in s)
            && (p.present <==> key in s)
            && p.root == StateRootOf(H, s)
            && (key in s ==>
                  && p.value == s[key]
                  && |p.path| == Height(|s|)
                  && PathIndex(p.path) == p.index < |s|
                  && Keys(s)[p.index] == key)
  {
    var ks := Keys(s);
    KeysAreKeys(s);
    if key in s {
      SearchFinds(ks, key);
      var idx := Search(ks, key);
      var level := LeafLevel(H, Leaves(s));
      assert level[idx] == H(Leaf(key, s[key]));
      PathFolds(H, level, idx);
    }
  }

  /** The fields of a proof: the index counts the keys below the wanted one, the total all of them; an absent key
      gets neither value nor leaf hash nor path. */
  lemma ProofFields(H: Hasher, s: State, key: ByteString) returns (below: set<ByteString>)
    ensures forall k :: k in below <==> k in s && k != key && AtMost(k, key)
    ensures var p := ProofOf(H, s, key);
            && p.key == key && p.total == |s|
            && p.index == |below|
            && (p.present <==> key in s)
            && (key in s ==> p.value == s[key] && p.leafHash == HexEncode(H(key + [0] + s[key])))
            && (key !in s ==> p.value == [] && p.leafHash == [] && p.path == [])
  {
    hide Path, HexEncode, StateRootOf, Leaves, AtMost, Keys, Search, Fold, Accepted;
    KeysAreKeys(s);
    below := SearchCounts(s, key);
    ProofsAreComplete(H, s, key);
    LeafIs(key, if key in s then s[key] else []);
  }

  lemma LeafIs(key: ByteString, value: ByteString)
    ensures Leaf(key, value) == key + [0] + value
  {}

  lemma SearchCounts(s: State, key: ByteString) returns (below: set<ByteString>)
    ensures forall k :: k in below <==> k in s && k != key && AtMost(k, key)
    ensures Search(Keys(s), key) == |below|
    ensures key in s <==> Search(Keys(s), key) < |Keys(s)| && Keys(s)[Search(Keys(s), key)] == key
  {
    hide AtMost, Keys, Search;
    KeysAreKeys(s);
    SearchSplits(Keys(s), key);
    if key in s { SearchFinds(Keys(s), key); }
    below := set k | k in s && k != key && AtMost(k, key);
    CountBelow(s, key, Search(Keys(s), key), below);
  }

  lemma CountBelow(s: State, key: ByteString, n: nat, below: set<ByteString>)
    requires n <= |Keys(s)| && forall i | 0 <= i < |Keys(s)| :: i < n <==> !AtMost(key, Keys(s)[i])
    requires forall k :: k in below <==> k in s && k != key && AtMost(k, key)
    ensures |below| == n
  {
    KeysAreKeys(s);
    hide Keys, AtMost;
    var ks := Keys(s);
    forall k | k in s ensures k in below <==> k in ks[..n] {
      var i :| 0 <= i < |ks| && ks[i] == k;
      AtMostTotal(k, key);
      if i < n { assert ks[..n][i] == k; }
      if k in ks[..n] { var j :| 0 <= j < n && ks[..n][j] == k; assert ks[j] == k; }
    }
    assert forall k | k in ks[..n] :: k in ks;
    DistinctCount(ks[..n], below);
  }

  /** A list without repeats has as many elements as the set of them. */
  lemma {:induction false} DistinctCount(ks: seq<ByteString>, keys: set<ByteString>)
    requires forall i, j | 0 <= i < j < |ks| :: ks[i] != ks[j]
    requires forall k :: k in keys <==> k in ks
    ensures |keys| == |ks|
  {
    if |ks| == 0 {
      assert keys == {};
    } else {
      assert forall k | k in ks[1..] :: k in ks && k != ks[0];
      assert forall k | k in ks && k != ks[0] :: k in ks[1..];
      DistinctCount(ks[1..], keys - {ks[0]});
    }
  }
}
