/** The hash chain as a value: building a block, loading one with all its checks, and replaying a list. */
module Chain {
  import opened ByteStrings
  import opened Lists
  import opened Options
  import opened Merkle
  import opened MerkleBinding
  import opened Model
  import opened Writes

  datatype Version = Version(height: nat, value: ByteString, deleted: bool)
  type Versions = map<ByteString, seq<Version>>

  /** The fields of an engine that its chain of blocks determines. */
  datatype Ledger = Ledger(blocks: seq<Block>, state: State, versions: Versions, txCount: nat, opCount: nat)

  const EMPTY := Ledger([], map[], map[], 0, 0)

  // ----- the version index -----

  function History(v: Versions, key: ByteString): seq<Version> { if key in v then v[key] else [] }

  function Record(v: Versions, height: nat, op: Operation): Versions {
    v[op.key := History(v, op.key) + [Version(height, Raw(op.value), op.delete)]]
  }

  function Recorded(v: Versions, height: nat, ops: seq<Operation>): Versions
    decreases |ops|
  {
    if |ops| == 0 then v else Record(Recorded(v, height, ops[..|ops| - 1]), height, ops[|ops| - 1])
  }

  lemma {:induction false} RecordedSplit(v: Versions, height: nat, a: seq<Operation>, b: seq<Operation>)
    ensures Recorded(v, height, a + b) == Recorded(Recorded(v, height, a), height, b)
    decreases |b|
  {
    if |b| == 0 {
      assert a + b == a;
    } else {
      assert (a + b)[..|a + b| - 1] == a + b[..|b| - 1];
      RecordedSplit(v, height, a, b[..|b| - 1]);
    }
  }

  /** The newest version not above a height. */
  function LookupAt(list: seq<Version>, height: nat): Option<ByteString>
    decreases |list|
  {
    if |list| == 0 then None
    else
      var last := list[|list| - 1];
      if last.height <= height then (if last.deleted then None else Some(last.value))
      else LookupAt(list[..|list| - 1], height)
  }

  function Lookup(s: State, key: ByteString): Option<ByteString> { if key in s then Some(s[key]) else None }

  // ----- domains -----

  datatype Domain = Account | ContractCode | ContractStorage | Log | Zk | Receipt | Contract

  const ACCOUNT := Ascii("account/")
  const CONTRACT := Ascii("contract/")
  const CONTRACT_CODE := Ascii("contract/code/")
  const CONTRACT_STORAGE := Ascii("contract-storage/")
  const LOG := Ascii("log/")
  const ZK := Ascii("zk/")
  const RECEIPT := Ascii("receipt/")

  predicate InDomain(d: Domain, key: ByteString) {
    match d
    case Account => ACCOUNT <= key
    case ContractCode => CONTRACT_CODE <= key
    case ContractStorage => CONTRACT_STORAGE <= key
    case Log => LOG <= key
    case Zk => ZK <= key
    case Receipt => RECEIPT <= key
    case Contract => CONTRACT <= key || CONTRACT_STORAGE <= key || ACCOUNT <= key
  }

  function DomainPart(d: Domain, s: State): State { map k | k in s && InDomain(d, k) :: s[k] }

  function DomainRoot(d: Domain, h: Header): ByteString {
    match d
    case Account => h.accountRoot
    case ContractCode => h.contractCodeRoot
    case ContractStorage => h.contractStorageRoot
    case Log => h.logRoot
    case Zk => h.zkRoot
    case Receipt => h.receiptRoot
    case Contract => h.contractRoot
  }

  // ----- blocks -----

  function Stripped(b: Block): Block { b.(header := b.header.(recordHash := [])) }

  function HashBlock(lib: Lib, b: Block): ByteString { HashHex(lib.hash, lib.jsonBlock(Stripped(b))) }

  function LastHash(blocks: seq<Block>): ByteString {
    if |blocks| == 0 then [] else blocks[|blocks| - 1].header.recordHash
  }

  function TxLeaves(lib: Lib, txs: seq<Transaction>): seq<ByteString> {
    seq<ByteString>(|txs|, i requires 0 <= i < |txs| => lib.jsonTx(txs[i]))
  }

  const SCHEMA := 4
  const COMPRESSION := Ascii("zlib-fast")

  /** The block Commit builds on a chain from its kept transactions. */
  ghost function BuildBlock(lib: Lib, blocks: seq<Block>, txs: seq<Transaction>, next: State, now: int): Block {
    var H := lib.hash;
    var h := Header(|blocks| + 1, now, LastHash(blocks), RootHex(H, TxLeaves(lib, txs)), StateRootOf(H, next),
                    StateRootOf(H, DomainPart(Contract, next)), PrefixRootOf(H, next, ACCOUNT),
                    PrefixRootOf(H, next, CONTRACT_CODE), PrefixRootOf(H, next, CONTRACT_STORAGE),
                    PrefixRootOf(H, next, LOG), PrefixRootOf(H, next, ZK), PrefixRootOf(H, next, RECEIPT),
                    [], SCHEMA, COMPRESSION);
    var b := Block(h, txs);
    b.(header := h.(recordHash := HashBlock(lib, b)))
  }

  datatype LoadError = Fine | HeightGap | PrevMismatch | HashMismatch | StateRootMismatch | ContractMismatch
                     | AccountMismatch | CodeMismatch | StorageMismatch | LogMismatch | ZkMismatch | ReceiptMismatch

  /** The checks of applyLoaded that come before any operation is applied. */
  function CheckLinks(lib: Lib, blocks: seq<Block>, b: Block): LoadError {
    if b.header.height != |blocks| + 1 then HeightGap
    else if b.header.prevHash != LastHash(blocks) then PrevMismatch
    else if HashBlock(lib, b) != b.header.recordHash then HashMismatch
    else Fine
  }

  /** The contract root of schema 3 covers contract keys only, that of schema 4 also storage and accounts. */
  ghost function ContractRootOf(H: Hasher, s: State, schema: nat): ByteString {
    if schema >= 4 then StateRootOf(H, DomainPart(Contract, s)) else PrefixRootOf(H, s, CONTRACT)
  }

  /** The checks that come after, against the state the block leads to. */
  ghost function CheckRoots(lib: Lib, s: State, h: Header): LoadError {
    var H := lib.hash;
    if StateRootOf(H, s) != h.stateRoot then StateRootMismatch
    else if h.schema < 3 then Fine
    else if ContractRootOf(H, s, h.schema) != h.contractRoot then ContractMismatch
    else if h.schema >= 4 && PrefixRootOf(H, s, ACCOUNT) != h.accountRoot then AccountMismatch
    else if h.schema >= 4 && PrefixRootOf(H, s, CONTRACT_CODE) != h.contractCodeRoot then CodeMismatch
    else if h.schema >= 4 && PrefixRootOf(H, s, CONTRACT_STORAGE) != h.contractStorageRoot then StorageMismatch
    else if h.schema >= 4 && PrefixRootOf(H, s, LOG) != h.logRoot then LogMismatch
    else if PrefixRootOf(H, s, ZK) != h.zkRoot then ZkMismatch
    else if PrefixRootOf(H, s, RECEIPT) != h.receiptRoot then ReceiptMismatch
    else Fine
  }

  function Applied(c: Ledger, b: Block): Ledger {
    Ledger(c.blocks + [b], ApplyOps(c.state, FlatOps(b.txs)), Recorded(c.versions, b.header.height, FlatOps(b.txs)),
           c.txCount + |b.txs|, c.opCount + |FlatOps(b.txs)|)
  }

  ghost predicate Loads(lib: Lib, c: Ledger, b: Block) {
    && CheckLinks(lib, c.blocks, b) == Fine
    && CheckRoots(lib, ApplyOps(c.state, FlatOps(b.txs)), b.header) == Fine
  }

  /** Replaying a list of blocks from nothing. */
  ghost function LoadAll(lib: Lib, bs: seq<Block>): Option<Ledger>
    decreases |bs|
  {
    if |bs| == 0 then Some(EMPTY)
    else
      match LoadAll(lib, bs[..|bs| - 1])
      case None => None
      case Some(c) => if Loads(lib, c, bs[|bs| - 1]) then Some(Applied(c, bs[|bs| - 1])) else None
  }

  // ----- committing -----

  datatype Outcome = NoTransactions | MissingId | MissingKey | NoStateChange | Built(block: Block)

  /** What Commit decides before it touches the disk. */
  ghost function Decide(lib: Lib, c: Ledger, txs: seq<Transaction>, now: int): Outcome {
    if |txs| == 0 then NoTransactions
    else
      match FilterTxs(c.state, txs)
      case BadId => MissingId
      case BadKey => MissingKey
      case Kept(kept, next) =>
        if |kept| == 0 then NoStateChange else Built(BuildBlock(lib, c.blocks, kept, next, now))
  }

  /** A block that Commit builds passes every check of applyLoaded, which applies it to the state that
      Commit computed. */
  lemma BuiltLoads(lib: Lib, c: Ledger, txs: seq<Transaction>, now: int)
    requires Decide(lib, c, txs, now).Built?
    ensures var b := Decide(lib, c, txs, now).block;
            && Loads(lib, c, b)
            && b.txs == FilterTxs(c.state, txs).txs != []
            && b.header.schema == SCHEMA
            && Applied(c, b).state == FilterTxs(c.state, txs).state == ApplyOps(c.state, FlatOps(txs))
  {
    BatchFilter(c.state, txs);
    var b := Decide(lib, c, txs, now).block;
    assert Stripped(b) == Block(b.header.(recordHash := []), b.txs);
  }

  /** Which batches build a block that the disk keeps: exactly those in which no operation that is effective where it
      comes writes an empty slice that is not nil. */
  lemma BuiltKeepsExactly(lib: Lib, c: Ledger, txs: seq<Transaction>, now: int)
    requires Decide(lib, c, txs, now).Built?
    ensures ValuesKept(Decide(lib, c, txs, now).block) <==> EffectsKept(c.state, FlatOps(txs))
    ensures OpsKept(FlatOps(txs)) ==> ValuesKept(Decide(lib, c, txs, now).block)
  {
    hide OpsKept, FlatOps, KeptOps, EffectsKept, FilterTxs, ApplyOps, BuildBlock;
    BuiltLoads(lib, c, txs, now);
    FilterFlattens(c.state, txs);
    FlatKept(Decide(lib, c, txs, now).block.txs);
    EffectsKeptExactly(c.state, FlatOps(txs));
    GivenAreKept(c.state, FlatOps(txs));
  }

  lemma GivenAreKept(s: State, ops: seq<Operation>)
    ensures OpsKept(ops) ==> EffectsKept(s, ops)
  {
    hide Effective, ApplyOps;
  }

  datatype Request = Request(txs: seq<Transaction>, now: int)

  /** The chain after a run of commits, in which refused batches leave no trace. */
  ghost function Run(lib: Lib, rs: seq<Request>): Ledger
    decreases |rs|
  {
    if |rs| == 0 then EMPTY
    else
      var c := Run(lib, rs[..|rs| - 1]);
      match Decide(lib, c, rs[|rs| - 1].txs, rs[|rs| - 1].now)
      case Built(b) => Applied(c, b)
      case _ => c
  }

  /** After any run of commits, replaying the blocks from nothing raises no error and reproduces state,
      versions and counters; no operation of any batch is lost or invented. */
  lemma {:induction false} RunsReplay(lib: Lib, rs: seq<Request>)
    ensures LoadAll(lib, Run(lib, rs).blocks) == Some(Run(lib, rs))
    ensures forall b | b in Run(lib, rs).blocks :: b.header.schema == SCHEMA
    decreases |rs|
  {
    if |rs| != 0 {
      var c := Run(lib, rs[..|rs| - 1]);
      var r := rs[|rs| - 1];
      RunsReplay(lib, rs[..|rs| - 1]);
      if Decide(lib, c, r.txs, r.now).Built? {
        BuiltLoads(lib, c, r.txs, r.now);
        LoadSnoc(lib, c.blocks, Decide(lib, c, r.txs, r.now).block);
      }
    }
  }

  lemma LoadSnoc(lib: Lib, bs: seq<Block>, b: Block)
    ensures LoadAll(lib, bs + [b]) ==
            match LoadAll(lib, bs)
            case None => None
            case Some(c) => if Loads(lib, c, b) then Some(Applied(c, b)) else None
  {
    assert (bs + [b])[..|bs|] == bs;
  }

  // ----- what loading a list says about it -----

  function Replay(bs: seq<Block>): State
    decreases |bs|
  {
    if |bs| == 0 then map[] else ApplyOps(Replay(bs[..|bs| - 1]), FlatOps(bs[|bs| - 1].txs))
  }

  function VersionsOf(bs: seq<Block>): Versions
    decreases |bs|
  {
    if |bs| == 0 then map[] else Recorded(VersionsOf(bs[..|bs| - 1]), |bs|, FlatOps(bs[|bs| - 1].txs))
  }

  /** The operations of a list of blocks, in order. */
  function FlatBlocks(bs: seq<Block>): seq<Operation>
    decreases |bs|
  {
    if |bs| == 0 then [] else FlatBlocks(bs[..|bs| - 1]) + FlatOps(bs[|bs| - 1].txs)
  }

  function AllTxs(bs: seq<Block>): seq<Transaction>
    decreases |bs|
  {
    if |bs| == 0 then [] else AllTxs(bs[..|bs| - 1]) + bs[|bs| - 1].txs
  }

  lemma LoadStep(lib: Lib, bs: seq<Block>)
    requires |bs| > 0 && LoadAll(lib, bs).Some?
    ensures LoadAll(lib, bs[..|bs| - 1]).Some?
    ensures var c, b := LoadAll(lib, bs[..|bs| - 1]).value, bs[|bs| - 1];
            Loads(lib, c, b) && LoadAll(lib, bs) == Some(Applied(c, b)) && b.header.height == |c.blocks| + 1
  {
    hide CheckRoots, HashBlock, Applied;
  }

  /** Loading one more block adds it, applies and records its operations under its height, and counts its
      transactions and operations. */
  lemma LoadedGrows(lib: Lib, bs: seq<Block>, b: Block)
    requires LoadAll(lib, bs + [b]).Some?
    ensures LoadAll(lib, bs).Some? && LoadAll(lib, []) == Some(Ledger([], map[], map[], 0, 0))
    ensures var c, c' := LoadAll(lib, bs).value, LoadAll(lib, bs + [b]).value;
            && c'.blocks == c.blocks + [b]
            && c'.txCount == c.txCount + |b.txs| && c'.opCount == c.opCount + |FlatOps(b.txs)|
            && c'.state == ApplyOps(c.state, FlatOps(b.txs))
            && c'.versions == Recorded(c.versions, b.header.height, FlatOps(b.txs))
  {
    hide Loads, ApplyOps, Recorded, FlatOps;
    LoadSnoc(lib, bs, b);
  }

  lemma FlatBlocksSnoc(bs: seq<Block>, b: Block)
    ensures FlatBlocks([]) == [] && FlatBlocks(bs + [b]) == FlatBlocks(bs) + FlatOps(b.txs)
  {
    hide FlatOps;
    assert (bs + [b])[..|bs|] == bs;
  }

  lemma AppliedLedger(c: Ledger, before: seq<Block>, b: Block)
    requires c.blocks == before && c.state == Replay(before) && c.versions == VersionsOf(before)
    requires c.txCount == |AllTxs(before)| && c.opCount == |FlatBlocks(before)|
    requires b.header.height == |before| + 1
    ensures Applied(c, b).blocks == before + [b]
    ensures Applied(c, b).txCount == |AllTxs(before + [b])| && Applied(c, b).opCount == |FlatBlocks(before + [b])|
    ensures Applied(c, b).state == Replay(before + [b]) && Applied(c, b).versions == VersionsOf(before + [b])
  {
    assert (before + [b])[..|before|] == before;
  }

  lemma {:induction false} LoadedLedger(lib: Lib, bs: seq<Block>)
    requires LoadAll(lib, bs).Some?
    ensures var c := LoadAll(lib, bs).value;
            && c.blocks == bs && c.state == Replay(bs) && c.versions == VersionsOf(bs)
            && c.txCount == |AllTxs(bs)| && c.opCount == |FlatBlocks(bs)|
    decreases |bs|
  {
    if |bs| != 0 {
      hide Loads, Applied, Replay, VersionsOf, LoadAll, AllTxs, FlatBlocks;
      var before, b := bs[..|bs| - 1], bs[|bs| - 1];
      LoadStep(lib, bs);
      LoadedLedger(lib, before);
      AppliedLedger(LoadAll(lib, before).value, before, b);
      Snoc(bs);
    }
  }

  /** Replaying blocks is applying all their operations in order. */
  lemma {:induction false} ReplayIsFlat(bs: seq<Block>)
    ensures Replay(bs) == ApplyOps(map[], FlatBlocks(bs))
    decreases |bs|
  {
    hide FlatOps;
    if |bs| > 0 {
      ReplayIsFlat(bs[..|bs| - 1]);
      ApplySplit(map[], FlatBlocks(bs[..|bs| - 1]), FlatOps(bs[|bs| - 1].txs));
    }
  }

  lemma {:induction false} PrefixLoads(lib: Lib, bs: seq<Block>, n: nat)
    requires n <= |bs| && LoadAll(lib, bs).Some?
    ensures LoadAll(lib, bs[..n]).Some?
    decreases |bs|
  {
    hide Loads;
    if n == |bs| {
      assert bs[..n] == bs;
    } else {
      PrefixLoads(lib, bs[..|bs| - 1], n);
      assert bs[..|bs| - 1][..n] == bs[..n];
    }
  }

  /** Every block of a loaded list passed its checks on the blocks before it. */
  lemma EachLoads(lib: Lib, bs: seq<Block>, i: nat)
    requires i < |bs| && LoadAll(lib, bs).Some?
    ensures LoadAll(lib, bs[..i]).Some? && LoadAll(lib, bs[..i]).value.blocks == bs[..i]
    ensures LoadAll(lib, bs[..i]).value.state == Replay(bs[..i])
    ensures Loads(lib, LoadAll(lib, bs[..i]).value, bs[i])
    ensures bs[i].header.height == i + 1
    ensures Replay(bs[..i + 1]) == ApplyOps(Replay(bs[..i]), FlatOps(bs[i].txs))
  {
    hide CheckRoots, ApplyOps, FlatOps, HashBlock;
    PrefixLoads(lib, bs, i + 1);
    LoadStep(lib, bs[..i + 1]);
    TakeMore(bs, i);
    LoadedLedger(lib, bs[..i]);
  }

  // ----- historical reads -----

  lemma {:induction false} OlderReads(v: Versions, height: nat, ops: seq<Operation>, key: ByteString, at: nat)
    requires at < height
    ensures LookupAt(History(Recorded(v, height, ops), key), at) == LookupAt(History(v, key), at)
    decreases |ops|
  {
    if |ops| != 0 {
      var mid := Recorded(v, height, ops[..|ops| - 1]);
      OlderReads(v, height, ops[..|ops| - 1], key, at);
      var list := History(Recorded(v, height, ops), key);
      if key == ops[|ops| - 1].key { assert list[..|list| - 1] == History(mid, key); }
    }
  }

  lemma {:induction false} NewerReads(v: Versions, s: State, height: nat, ops: seq<Operation>, key: ByteString, at: nat)
    requires height <= at && LookupAt(History(v, key), at) == Lookup(s, key)
    ensures LookupAt(History(Recorded(v, height, ops), key), at) == Lookup(ApplyOps(s, ops), key)
    decreases |ops|
  {
    if |ops| != 0 {
      NewerReads(v, s, height, ops[..|ops| - 1], key, at);
    }
  }

  /** A read at a height finds what replaying that many blocks would leave under the key, however often
      one block wrote or deleted it. */
  lemma {:induction false} ReadsAreReplays(bs: seq<Block>, key: ByteString, at: nat)
    ensures LookupAt(History(VersionsOf(bs), key), at)
         == Lookup(Replay(bs[..if at < |bs| then at else |bs|]), key)
    decreases |bs|
  {
    assert bs[..|bs|] == bs;
    if |bs| != 0 {
      var before := bs[..|bs| - 1];
      ReadsAreReplays(before, key, at);
      if at < |bs| {
        OlderReads(VersionsOf(before), |bs|, FlatOps(bs[|bs| - 1].txs), key, at);
        assert before[..at] == bs[..at];
      } else {
        assert before[..|before|] == before;
        NewerReads(VersionsOf(before), Replay(before), |bs|, FlatOps(bs[|bs| - 1].txs), key, at);
      }
    }
  }

  // ----- the tip hash -----

  ghost function Among(bs: seq<Block>): set<Block> { set b | b in bs }

  ghost function HashedBlocks(lib: Lib, bs: set<Block>): (r: set<ByteString>)
    ensures forall b | b in bs :: lib.jsonBlock(Stripped(b)) in r
  {
    set b | b in bs :: lib.jsonBlock(Stripped(b))
  }

  /** The serialisation keeps these blocks apart, but for empty payloads. */
  ghost predicate JsonApart(lib: Lib, bs: set<Block>) {
    forall a, b | a in bs && b in bs && lib.jsonBlock(Stripped(a)) == lib.jsonBlock(Stripped(b)) ::
      Shown(Stripped(a)) == Shown(Stripped(b))
  }

  lemma RecordHashBinds(lib: Lib, a: Block, b: Block, among: set<Block>)
    requires a in among && b in among
    requires CollisionFree(lib.hash, HashedBlocks(lib, among)) && JsonApart(lib, among)
    ensures HashBlock(lib, a) == HashBlock(lib, b) ==> Shown(Stripped(a)) == Shown(Stripped(b))
  {
    hide Shown;
    if HashBlock(lib, a) == HashBlock(lib, b) {
      HexInjective(lib.hash(lib.jsonBlock(Stripped(a))), lib.hash(lib.jsonBlock(Stripped(b))));
    }
  }

  /** Heights, previous hashes and record hashes are in order. */
  predicate Linked(lib: Lib, bs: seq<Block>)
    decreases |bs|
  {
    |bs| == 0 || (Linked(lib, bs[..|bs| - 1]) && CheckLinks(lib, bs[..|bs| - 1], bs[|bs| - 1]) == Fine)
  }

  lemma {:induction false} LoadedIsLinked(lib: Lib, bs: seq<Block>)
    requires LoadAll(lib, bs).Some?
    ensures Linked(lib, bs)
    decreases |bs|
  {
    if |bs| > 0 {
      LoadStep(lib, bs);
      LoadedLedger(lib, bs[..|bs| - 1]);
      LoadedIsLinked(lib, bs[..|bs| - 1]);
    }
  }

  lemma UnstripSame(x: Block, b: Block)
    requires Shown(Stripped(x)) == Shown(Stripped(b)) && x.header.recordHash == b.header.recordHash
    ensures Shown(x) == Shown(b)
  {
    assert x.header == Stripped(x).header.(recordHash := x.header.recordHash);
    assert b.header == Stripped(b).header.(recordHash := b.header.recordHash);
  }

  lemma LastBlockBinds(lib: Lib, xs: seq<Block>, ys: seq<Block>, among: set<Block>)
    requires |xs| > 0 && |ys| > 0 && Linked(lib, xs) && Linked(lib, ys)
    requires xs[|xs| - 1] in among && ys[|ys| - 1] in among
    requires CollisionFree(lib.hash, HashedBlocks(lib, among)) && JsonApart(lib, among)
    requires LastHash(xs) == LastHash(ys)
    ensures |xs| == |ys| && Shown(xs[|xs| - 1]) == Shown(ys[|ys| - 1])
    ensures LastHash(xs[..|xs| - 1]) == LastHash(ys[..|ys| - 1])
  {
    LinkedLast(lib, xs);
    LinkedLast(lib, ys);
    SameHashSameBlock(lib, xs[|xs| - 1], ys[|ys| - 1], among);
    assert xs[|xs| - 1].header == Shown(xs[|xs| - 1]).header;
    assert ys[|ys| - 1].header == Shown(ys[|ys| - 1]).header;
  }

  lemma LinkedLast(lib: Lib, xs: seq<Block>)
    requires |xs| > 0 && Linked(lib, xs)
    ensures var h := xs[|xs| - 1].header;
            && h.height == |xs| && h.prevHash == LastHash(xs[..|xs| - 1])
            && LastHash(xs) == h.recordHash == HashBlock(lib, xs[|xs| - 1])
  {}

  lemma SameHashSameBlock(lib: Lib, x: Block, y: Block, among: set<Block>)
    requires x in among && y in among
    requires CollisionFree(lib.hash, HashedBlocks(lib, among)) && JsonApart(lib, among)
    requires x.header.recordHash == HashBlock(lib, x) && y.header.recordHash == HashBlock(lib, y)
    requires x.header.recordHash == y.header.recordHash
    ensures Shown(x) == Shown(y)
  {
    RecordHashBinds(lib, x, y, among);
    UnstripSame(x, y);
  }

  /** A list of blocks as their JSON texts show it. */
  function ShownAll(bs: seq<Block>): (r: seq<Block>)
    ensures |r| == |bs|
  {
    seq<Block>(|bs|, i requires 0 <= i < |bs| => Shown(bs[i]))
  }

  lemma ShownSnoc(bs: seq<Block>, b: Block)
    ensures ShownAll(bs + [b]) == ShownAll(bs) + [Shown(b)]
  {}

  lemma {:induction false} TipBindsLinks(lib: Lib, xs: seq<Block>, ys: seq<Block>, among: set<Block>)
    requires |xs| > 0 && |ys| > 0 && Linked(lib, xs) && Linked(lib, ys)
    requires forall i | 0 <= i < |xs| :: xs[i] in among
    requires forall i | 0 <= i < |ys| :: ys[i] in among
    requires CollisionFree(lib.hash, HashedBlocks(lib, among)) && JsonApart(lib, among)
    requires LastHash(xs) == LastHash(ys)
    ensures ShownAll(xs) == ShownAll(ys)
    decreases |xs|
  {
    hide LastHash, JsonApart, CollisionFree, CheckLinks, HashedBlocks, Shown, ShownAll;
    var n := |xs| - 1;
    LastBlockBinds(lib, xs, ys, among);
    if n > 0 { TipBindsLinks(lib, xs[..n], ys[..n], among); }
    Snoc(xs);
    Snoc(ys);
    ShownSnoc(xs[..n], xs[n]);
    ShownSnoc(ys[..n], ys[n]);
  }

  lemma LinkedTips(lib: Lib, xs: seq<Block>, ys: seq<Block>)
    requires |xs| > 0 && |ys| > 0 && Linked(lib, xs) && Linked(lib, ys) && LastHash(xs) == LastHash(ys)
    requires CollisionFree(lib.hash, HashedBlocks(lib, Among(xs) + Among(ys))) && JsonApart(lib, Among(xs) + Among(ys))
    ensures ShownAll(xs) == ShownAll(ys)
  {
    hide Linked, LastHash, JsonApart, CollisionFree, HashedBlocks, ShownAll;
    TipBindsLinks(lib, xs, ys, Among(xs) + Among(ys));
  }

  lemma ShownTip(xs: seq<Block>)
    ensures LastHash(ShownAll(xs)) == LastHash(xs)
  {}

  /** The hash of the last block binds the whole chain: two lists that load end in one record hash exactly when
      they are one list, but for empty payloads. */
  lemma TipBindsChain(lib: Lib, xs: seq<Block>, ys: seq<Block>)
    requires |xs| > 0 && |ys| > 0 && LoadAll(lib, xs).Some? && LoadAll(lib, ys).Some?
    requires CollisionFree(lib.hash, HashedBlocks(lib, Among(xs) + Among(ys))) && JsonApart(lib, Among(xs) + Among(ys))
    ensures LastHash(xs) == LastHash(ys) <==> ShownAll(xs) == ShownAll(ys)
  {
    hide LoadAll, Linked, JsonApart, CollisionFree, HashedBlocks, ShownAll, LastHash;
    LoadedIsLinked(lib, xs);
    LoadedIsLinked(lib, ys);
    ShownTip(xs);
    ShownTip(ys);
    if LastHash(xs) == LastHash(ys) { LinkedTips(lib, xs, ys); }
  }

  /** Only the record hash protects the transaction root: any other root loads as well once the block is
      hashed again. */
  lemma TxRootIsNotRechecked(lib: Lib, c: Ledger, b: Block, root: ByteString) returns (b': Block)
    requires Loads(lib, c, b)
    ensures Loads(lib, c, b') && b'.header.txRoot == root && b'.txs == b.txs
  {
    var h := b.header.(txRoot := root, recordHash := []);
    b' := Block(h.(recordHash := HashBlock(lib, Block(h, b.txs))), b.txs);
    assert Stripped(b') == Stripped(Block(h, b.txs));
  }

  /** A block and its predecessor have different record hashes. */
  lemma NextHashIsNew(lib: Lib, c: Ledger, b: Block, among: set<Block>)
    requires LoadAll(lib, c.blocks) == Some(c) && |c.blocks| > 0 && Loads(lib, c, b)
    requires b in among && c.blocks[|c.blocks| - 1] in among
    requires CollisionFree(lib.hash, HashedBlocks(lib, among)) && JsonApart(lib, among)
    ensures b.header.recordHash != LastHash(c.blocks)
  {
    var last := c.blocks[|c.blocks| - 1];
    EachLoads(lib, c.blocks, |c.blocks| - 1);
    RecordHashBinds(lib, b, last, among);
    assert Shown(Stripped(b)).header.height == b.header.height != last.header.height;
  }

  // ----- reloading what the disk kept -----

  function NormAll(bs: seq<Block>): (r: seq<Block>)
    ensures |r| == |bs|
  {
    seq<Block>(|bs|, i requires 0 <= i < |bs| => Norm(bs[i]))
  }

  lemma NormSnoc(bs: seq<Block>, b: Block)
    ensures NormAll(bs + [b]) == NormAll(bs) + [Norm(b)]
  {}

  lemma {:induction false} ShownKeepsOps(txs: seq<Transaction>)
    ensures FlatOps(ShownTxs(txs)) == FlatOps(txs)
    decreases |txs|
  {
    if |txs| > 0 {
      ShownKeepsOps(txs[..|txs| - 1]);
      assert ShownTxs(txs)[..|txs| - 1] == ShownTxs(txs[..|txs| - 1]);
    }
  }

  lemma SameEncoding(lib: Lib, b: Block)
    requires lib.Sound()
    ensures lib.encode(Norm(b)) == lib.encode(b) && Norm(b).header == b.header
  {
    hide Shown, ShownTx;
  }

  /** Neither hash of a block covers its empty payloads. */
  lemma EmptyPayloadsAreNotHashed(lib: Lib, b: Block)
    requires lib.Sound()
    ensures HashBlock(lib, Shown(b)) == HashBlock(lib, b) && TxLeaves(lib, Shown(b).txs) == TxLeaves(lib, b.txs)
    ensures Shown(b).header == b.header && |Shown(b).txs| == |b.txs| && FlatOps(Shown(b).txs) == FlatOps(b.txs)
  {
    ShownKeepsOps(b.txs);
    assert Stripped(Shown(b)) == Shown(Stripped(b));
    var x := Stripped(b);
    assert lib.jsonBlock(Shown(x)) == lib.jsonBlock(x);
    forall i | 0 <= i < |b.txs| ensures TxLeaves(lib, Shown(b).txs)[i] == TxLeaves(lib, b.txs)[i] {
      var tx := b.txs[i];
      assert lib.jsonTx(ShownTx(tx)) == lib.jsonTx(tx);
    }
  }

  lemma KeptLoads(lib: Lib, c: Ledger, b: Block)
    requires lib.Sound() && ValuesKept(b)
    ensures Loads(lib, c, Norm(b)) <==> Loads(lib, c, b)
  {
    hide Lib.Sound, HashBlock, CheckRoots, ApplyOps, FlatOps, LastHash, Shown, Norm, ValuesKept;
    NormIsShownExactly(b);
    EmptyPayloadsAreNotHashed(lib, b);
  }

  lemma ShownLoads(lib: Lib, c: Ledger, b: Block)
    requires lib.Sound()
    ensures var c' := c.(blocks := ShownAll(c.blocks));
            && (Loads(lib, c', Shown(b)) <==> Loads(lib, c, b))
            && Applied(c', Shown(b)) == Applied(c, b).(blocks := ShownAll(c.blocks + [b]))
  {
    hide Lib.Sound, HashBlock, CheckRoots, ApplyOps, FlatOps, Recorded, LastHash, Shown, ShownAll;
    EmptyPayloadsAreNotHashed(lib, b);
    ShownTip(c.blocks);
    ShownSnoc(c.blocks, b);
  }

  /** Turning empty payloads into nil changes nothing that loading sees. */
  lemma {:induction false} ShownAllLoads(lib: Lib, bs: seq<Block>)
    requires lib.Sound()
    ensures LoadAll(lib, ShownAll(bs)) ==
            match LoadAll(lib, bs) case None => None case Some(c) => Some(c.(blocks := ShownAll(bs)))
    decreases |bs|
  {
    hide Loads, Applied, Shown, ShownAll, LoadAll, Lib.Sound;
    if |bs| == 0 {
      NothingLoads(lib, bs);
    } else {
      var before, b := bs[..|bs| - 1], bs[|bs| - 1];
      Snoc(bs);
      ShownAllLoads(lib, before);
      ShownSnoc(before, b);
      LoadSnoc(lib, before, b);
      LoadSnoc(lib, ShownAll(before), Shown(b));
      if LoadAll(lib, before).Some? {
        LoadedLedger(lib, before);
        ShownLoads(lib, LoadAll(lib, before).value, b);
      }
    }
  }

  lemma NothingLoads(lib: Lib, bs: seq<Block>)
    requires bs == []
    ensures LoadAll(lib, bs) == Some(EMPTY) && LoadAll(lib, ShownAll(bs)) == Some(EMPTY)
  {
    assert ShownAll(bs) == [];
  }

  ghost predicate AllKept(bs: seq<Block>) { forall i | 0 <= i < |bs| :: ValuesKept(bs[i]) }

  lemma KeptAreShown(bs: seq<Block>)
    requires AllKept(bs)
    ensures NormAll(bs) == ShownAll(bs)
  {
    forall i | 0 <= i < |bs| ensures NormAll(bs)[i] == ShownAll(bs)[i] {
      NormIsShownExactly(bs[i]);
    }
  }

  lemma {:induction false} RelinksOnlyKept(lib: Lib, bs: seq<Block>, ns: seq<Block>, among: set<Block>)
    requires |ns| == |bs| && Linked(lib, bs) && Linked(lib, ns)
    requires forall i | 0 <= i < |bs| :: bs[i] in among && ns[i] in among && ns[i] == Norm(bs[i])
    requires CollisionFree(lib.hash, HashedBlocks(lib, among)) && JsonApart(lib, among)
    ensures AllKept(bs)
    decreases |bs|
  {
    hide CheckLinks, JsonApart, CollisionFree, HashedBlocks, ValuesKept, Norm;
    if |bs| != 0 {
      var n := |bs| - 1;
      LastRelinksOnlyKept(lib, bs, ns, among);
      RelinksOnlyKept(lib, bs[..n], ns[..n], among);
      assert forall i | 0 <= i < n :: bs[..n][i] == bs[i];
    }
  }

  lemma LastRelinksOnlyKept(lib: Lib, bs: seq<Block>, ns: seq<Block>, among: set<Block>)
    requires |ns| == |bs| > 0 && Linked(lib, bs) && Linked(lib, ns)
    requires var b := bs[|bs| - 1];
             b in among && Norm(b) in among && ns[|bs| - 1] == Norm(b)
    requires CollisionFree(lib.hash, HashedBlocks(lib, among)) && JsonApart(lib, among)
    ensures ValuesKept(bs[|bs| - 1])
  {
    var b := bs[|bs| - 1];
    assert Norm(b).header == b.header;
    LinkedLast(lib, bs);
    LinkedLast(lib, ns);
    NormIsShownExactly(b);
    hide Linked, Norm, ValuesKept, LastHash, Shown;
    SameHashSameBlock(lib, b, Norm(b), among);
  }

  lemma NormalisedStay(bs: seq<Block>)
    requires forall b | b in bs :: Normalised(b)
    ensures NormAll(bs) == bs
  {
    forall i | 0 <= i < |bs| ensures NormAll(bs)[i] == bs[i] {
      assert bs[i] in bs;
      NormKeepsExactlyNormalised(bs[i]);
    }
  }

  /** With its values kept, a chain that went through the disk encoding loads to the same ledger. */
  lemma KeptReload(lib: Lib, bs: seq<Block>)
    requires lib.Sound() && AllKept(bs)
    ensures LoadAll(lib, NormAll(bs)) ==
            match LoadAll(lib, bs) case None => None case Some(c) => Some(c.(blocks := NormAll(bs)))
  {
    hide LoadAll, Lib.Sound, ValuesKept, NormAll, ShownAll;
    KeptAreShown(bs);
    ShownAllLoads(lib, bs);
  }

  /** A chain survives the trip through the disk encoding exactly when none of its values is an empty slice that is
      not nil; it then loads to the same state, versions and counters, whatever its payloads. */
  lemma ReloadsExactlyWhenKept(lib: Lib, bs: seq<Block>)
    requires lib.Sound() && LoadAll(lib, bs).Some?
    requires var among := Among(bs) + Among(NormAll(bs));
             CollisionFree(lib.hash, HashedBlocks(lib, among)) && JsonApart(lib, among)
    ensures LoadAll(lib, NormAll(bs)).Some? <==> AllKept(bs)
    ensures AllKept(bs) ==> LoadAll(lib, NormAll(bs)) == Some(LoadAll(lib, bs).value.(blocks := NormAll(bs)))
  {
    hide LoadAll, Linked, ValuesKept, JsonApart, CollisionFree, HashedBlocks, Lib.Sound;
    if AllKept(bs) {
      KeptReload(lib, bs);
    } else if LoadAll(lib, NormAll(bs)).Some? {
      LoadedIsLinked(lib, bs);
      LoadedIsLinked(lib, NormAll(bs));
      RelinksOnlyKept(lib, bs, NormAll(bs), Among(bs) + Among(NormAll(bs)));
      assert false;
    }
  }

  // ----- domain roots -----

  lemma DomainsAreBelow(s: State)
    ensures DomainPart(Account, s) == Below(s, ACCOUNT)
    ensures DomainPart(ContractCode, s) == Below(s, CONTRACT_CODE)
    ensures DomainPart(ContractStorage, s) == Below(s, CONTRACT_STORAGE)
    ensures DomainPart(Log, s) == Below(s, LOG)
    ensures DomainPart(Zk, s) == Below(s, ZK)
    ensures DomainPart(Receipt, s) == Below(s, RECEIPT)
  {}

  lemma CheckedRoots(lib: Lib, s: State, h: Header, d: Domain)
    requires CheckRoots(lib, s, h) == Fine && h.schema >= SCHEMA
    ensures DomainRoot(d, h) == StateRootOf(lib.hash, DomainPart(d, s))
  {
    DomainsAreBelow(s);
    match d
    case Account =>
    case ContractCode =>
    case ContractStorage =>
    case Log =>
    case Zk =>
    case Receipt =>
    case Contract =>
  }

  /** In a loaded chain each domain root of a current-schema block is the root of that domain's part of the
      state after the block. */
  lemma DomainRootsCohere(lib: Lib, bs: seq<Block>, i: nat, d: Domain)
    requires i < |bs| && LoadAll(lib, bs).Some? && bs[i].header.schema >= SCHEMA
    ensures DomainRoot(d, bs[i].header) == StateRootOf(lib.hash, DomainPart(d, Replay(bs[..i + 1])))
  {
    EachLoads(lib, bs, i);
    CheckedRoots(lib, Replay(bs[..i + 1]), bs[i].header, d);
  }

  lemma {:induction false} UntouchedPart(d: Domain, s: State, ops: seq<Operation>)
    requires forall op | op in ops :: !InDomain(d, op.key)
    ensures DomainPart(d, ApplyOps(s, ops)) == DomainPart(d, s)
    decreases |ops|
  {
    hide InDomain;
    if |ops| != 0 {
      UntouchedPart(d, s, ops[..|ops| - 1]);
      var mid, op := ApplyOps(s, ops[..|ops| - 1]), ops[|ops| - 1];
      assert op in ops;
      assert DomainPart(d, ApplyOp(mid, op)) == DomainPart(d, mid);
    }
  }

  /** A block that touches no key of a domain keeps its root; before the first block that is the root of nothing. */
  lemma UntouchedDomainKeepsRoot(lib: Lib, bs: seq<Block>, i: nat, d: Domain)
    requires i < |bs| && LoadAll(lib, bs).Some?
    requires bs[i].header.schema >= SCHEMA && (i > 0 ==> bs[i - 1].header.schema >= SCHEMA)
    requires forall op | op in FlatOps(bs[i].txs) :: !InDomain(d, op.key)
    ensures DomainRoot(d, bs[i].header) ==
            if i == 0 then StateRootOf(lib.hash, map[]) else DomainRoot(d, bs[i - 1].header)
  {
    hide LoadAll, Loads, Replay, ApplyOps, FlatOps, InDomain, DomainRoot, DomainPart, StateRootOf;
    DomainRootsCohere(lib, bs, i, d);
    EachLoads(lib, bs, i);
    UntouchedPart(d, Replay(bs[..i]), FlatOps(bs[i].txs));
    if i > 0 {
      DomainRootsCohere(lib, bs, i - 1, d);
      assert bs[..i - 1 + 1] == bs[..i];
    } else {
      NothingReplayed(d, bs[..i]);
    }
  }

  lemma NothingReplayed(d: Domain, bs: seq<Block>)
    requires bs == []
    ensures DomainPart(d, Replay(bs)) == map[]
  {}

  /** Equal domain roots of two chains mean equal parts, as for any state root. */
  lemma DomainRootBinds(lib: Lib, xs: seq<Block>, i: nat, bs: seq<Block>, j: nat, d: Domain)
    requires i < |xs| && LoadAll(lib, xs).Some? && xs[i].header.schema >= SCHEMA
    requires j < |bs| && LoadAll(lib, bs).Some? && bs[j].header.schema >= SCHEMA
    requires DomainRoot(d, xs[i].header) == DomainRoot(d, bs[j].header)
    requires var s, t := DomainPart(d, Replay(xs[..i + 1])), DomainPart(d, Replay(bs[..j + 1]));
             && NulFreeKeys(s) && NulFreeKeys(t)
             && CollisionFree(lib.hash, HashedFor(lib.hash, s) + HashedFor(lib.hash, t))
             && (Height(|s|) < Height(|t|) ==> NoNodeSizedLeaf(s))
             && (Height(|t|) < Height(|s|) ==> NoNodeSizedLeaf(t))
    ensures DomainPart(d, Replay(xs[..i + 1])) == DomainPart(d, Replay(bs[..j + 1]))
  {
    DomainRootsCohere(lib, xs, i, d);
    DomainRootsCohere(lib, bs, j, d);
    StateRootBinds(lib.hash, DomainPart(d, Replay(xs[..i + 1])), DomainPart(d, Replay(bs[..j + 1])));
  }
}
