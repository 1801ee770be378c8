/** What the headers of blocks say, field by field, and what the checks of a loaded block come to. */
module Headers {
  import opened ByteStrings
  import opened Options
  import opened Merkle
  import opened MerkleBinding
  import opened PaddedTrees
  import opened Model
  import opened Writes
  import opened Chain

  // ----- the parts of the state -----

  /** Which keys belong to which domain. */
  lemma DomainsAre(s: State)
    ensures Below(s, ACCOUNT) == DomainPart(Account, s) == map k | k in s && Ascii("account/") <= k :: s[k]
    ensures Below(s, CONTRACT_CODE) == DomainPart(ContractCode, s)
         == map k | k in s && Ascii("contract/code/") <= k :: s[k]
    ensures Below(s, CONTRACT_STORAGE) == DomainPart(ContractStorage, s)
         == map k | k in s && Ascii("contract-storage/") <= k :: s[k]
    ensures Below(s, LOG) == DomainPart(Log, s) == map k | k in s && Ascii("log/") <= k :: s[k]
    ensures Below(s, ZK) == DomainPart(Zk, s) == map k | k in s && Ascii("zk/") <= k :: s[k]
    ensures Below(s, RECEIPT) == DomainPart(Receipt, s) == map k | k in s && Ascii("receipt/") <= k :: s[k]
    ensures Below(s, CONTRACT) == map k | k in s && Ascii("contract/") <= k :: s[k]
    ensures DomainPart(Contract, s) ==
            map k | k in s && (Ascii("contract/") <= k || Ascii("contract-storage/") <= k || Ascii("account/") <= k) ::
              s[k]
  {
    DomainsAreBelow(s);
  }

  // ----- loading -----

  /** The checks of the roots, in one piece: the state root always, the roots of contract, zk and receipt keys from
      schema 3 on, and from schema 4 on all nine, with storage and accounts among the contracts. */
  lemma ChecksAre(lib: Lib, s: State, h: Header)
    ensures CheckRoots(lib, s, h) == Fine <==>
            && h.stateRoot == StateRootOf(lib.hash, s)
            && (h.schema >= 3 ==>
                  && h.zkRoot == StateRootOf(lib.hash, map k | k in s && Ascii("zk/") <= k :: s[k])
                  && h.receiptRoot == StateRootOf(lib.hash, map k | k in s && Ascii("receipt/") <= k :: s[k]))
            && (h.schema == 3 ==>
                  h.contractRoot == StateRootOf(lib.hash, map k | k in s && Ascii("contract/") <= k :: s[k]))
            && (h.schema >= 4 ==>
                  && h.contractRoot
                  == StateRootOf(lib.hash, map k | k in s && (Ascii("contract/") <= k || Ascii("contract-storage/") <= k
                                                              || Ascii("account/") <= k) :: s[k])
                  && h.accountRoot == StateRootOf(lib.hash, map k | k in s && Ascii("account/") <= k :: s[k])
                  && h.contractCodeRoot == StateRootOf(lib.hash, map k | k in s && Ascii("contract/code/") <= k :: s[k])
                  && h.contractStorageRoot
                  == StateRootOf(lib.hash, map k | k in s && Ascii("contract-storage/") <= k :: s[k])
                  && h.logRoot == StateRootOf(lib.hash, map k | k in s && Ascii("log/") <= k :: s[k]))
  {
    hide StateRootOf, Below, DomainPart, InDomain, Ascii;
    DomainsAre(s);
  }

  /** An error names the first root that does not fit, in the order of the checks. */
  lemma ErrorsAreFirst(lib: Lib, s: State, h: Header)
    ensures var H, e := lib.hash, CheckRoots(lib, s, h);
            var state := h.stateRoot == StateRootOf(H, s);
            var contract := h.contractRoot == if h.schema >= 4 then StateRootOf(H, DomainPart(Contract, s))
                                              else StateRootOf(H, Below(s, Ascii("contract/")));
            var account := h.schema < 4 || h.accountRoot == StateRootOf(H, Below(s, Ascii("account/")));
            var code := h.schema < 4 || h.contractCodeRoot == StateRootOf(H, Below(s, Ascii("contract/code/")));
            var storage := h.schema < 4
              || h.contractStorageRoot == StateRootOf(H, Below(s, Ascii("contract-storage/")));
            var log := h.schema < 4 || h.logRoot == StateRootOf(H, Below(s, Ascii("log/")));
            var zk := h.zkRoot == StateRootOf(H, Below(s, Ascii("zk/")));
            var receipt := h.receiptRoot == StateRootOf(H, Below(s, Ascii("receipt/")));
            var domains := state && h.schema >= 3;
            && (e == StateRootMismatch <==> !state)
            && (e == ContractMismatch <==> domains && !contract)
            && (e == AccountMismatch <==> domains && contract && !account)
            && (e == CodeMismatch <==> domains && contract && account && !code)
            && (e == StorageMismatch <==> domains && contract && account && code && !storage)
            && (e == LogMismatch <==> domains && contract && account && code && storage && !log)
            && (e == ZkMismatch <==> domains && contract && account && code && storage && log && !zk)
            && (e == ReceiptMismatch <==> domains && contract && account && code && storage && log && zk && !receipt)
  {
    hide StateRootOf, Below, DomainPart, InDomain, Ascii;
  }

  /** Before any operation is applied, height, previous hash and record hash are checked in this order. */
  lemma LinkErrorsAreFirst(lib: Lib, blocks: seq<Block>, b: Block)
    ensures var e, h := CheckLinks(lib, blocks, b), b.header;
            var next := h.height == |blocks| + 1;
            var prev := h.prevHash == if blocks == [] then [] else blocks[|blocks| - 1].header.recordHash;
            var own := h.recordHash == HexEncode(lib.hash(lib.jsonBlock(Block(h.(recordHash := []), b.txs))));
            && (e == HeightGap <==> !next)
            && (e == PrevMismatch <==> next && !prev)
            && (e == HashMismatch <==> next && prev && !own)
            && (e == Fine <==> next && prev && own)
  {
    hide HexEncode;
    assert Stripped(b) == Block(b.header.(recordHash := []), b.txs);
  }

  /** A block loads exactly when it has the next height, the last record hash, its own record hash over everything
      else, and roots that fit the state its operations lead to. */
  lemma LoadsExactly(lib: Lib, c: Ledger, b: Block)
    ensures Loads(lib, c, b) <==>
            && b.header.height == |c.blocks| + 1
            && b.header.prevHash == (if c.blocks == [] then [] else c.blocks[|c.blocks| - 1].header.recordHash)
            && b.header.recordHash
               == HexEncode(lib.hash(lib.jsonBlock(Block(b.header.(recordHash := []), b.txs))))
            && CheckRoots(lib, ApplyOps(c.state, FlatOps(b.txs)), b.header) == Fine
  {
    hide CheckRoots, CheckLinks, ApplyOps, FlatOps, HexEncode;
    LinkErrorsAreFirst(lib, c.blocks, b);
  }

  /** The state root of every block of a loaded chain is the root of the state after it, whatever its schema; from
      schema 3 on so are its zk and receipt roots for their keys, and for schema 3 its contract root. */
  lemma StateRootsCohere(lib: Lib, bs: seq<Block>, i: nat)
    requires i < |bs| && LoadAll(lib, bs).Some?
    ensures var h, s := bs[i].header, Replay(bs[..i + 1]);
            && h.stateRoot == StateRootOf(lib.hash, s)
            && (h.schema >= 3 ==>
                  && h.zkRoot == StateRootOf(lib.hash, map k | k in s && Ascii("zk/") <= k :: s[k])
                  && h.receiptRoot == StateRootOf(lib.hash, map k | k in s && Ascii("receipt/") <= k :: s[k]))
            && (h.schema == 3 ==>
                  h.contractRoot == StateRootOf(lib.hash, map k | k in s && Ascii("contract/") <= k :: s[k]))
  {
    hide LoadAll, StateRootOf, Replay, ApplyOps, FlatOps, CheckRoots, CheckLinks, Ascii;
    EachLoads(lib, bs, i);
    ChecksAre(lib, Replay(bs[..i + 1]), bs[i].header);
  }

  /** Equal state roots in two loaded chains mean equal states, as for any state root. */
  lemma StateRootBindsState(lib: Lib, xs: seq<Block>, i: nat, bs: seq<Block>, j: nat)
    requires i < |xs| && LoadAll(lib, xs).Some? && j < |bs| && LoadAll(lib, bs).Some?
    requires xs[i].header.stateRoot == bs[j].header.stateRoot
    requires var s, t := Replay(xs[..i + 1]), Replay(bs[..j + 1]);
             && NulFreeKeys(s) && NulFreeKeys(t)
             && CollisionFree(lib.hash, HashedFor(lib.hash, s) + HashedFor(lib.hash, t))
             && (Height(|s|) < Height(|t|) ==> NoNodeSizedLeaf(s))
             && (Height(|t|) < Height(|s|) ==> NoNodeSizedLeaf(t))
    ensures Replay(xs[..i + 1]) == Replay(bs[..j + 1])
  {
    hide LoadAll, StateRootOf, Replay, HashedFor, CollisionFree, NulFreeKeys, NoNodeSizedLeaf, Height, Ascii;
    StateRootsCohere(lib, xs, i);
    StateRootsCohere(lib, bs, j);
    StateRootBinds(lib.hash, Replay(xs[..i + 1]), Replay(bs[..j + 1]));
  }

  // ----- committing -----

  /** The first transaction of a batch that has no id or an empty key. */
  lemma {:induction false} FirstInvalid(txs: seq<Transaction>) returns (i: nat)
    requires exists tx :: tx in txs && Invalid(tx)
    ensures i < |txs| && (txs[i].id == [] || exists op :: op in txs[i].ops && op.key == [])
    ensures forall j | 0 <= j < i :: txs[j].id != [] && forall op | op in txs[j].ops :: op.key != []
    decreases |txs|
  {
    i := 0;
    while !Invalid(txs[i])
      invariant i < |txs| && forall j | 0 <= j < i :: !Invalid(txs[j])
      invariant exists tx :: tx in txs[i..] && Invalid(tx)
      decreases |txs| - i
    {
      assert txs[i..] == [txs[i]] + txs[i + 1..];
      i := i + 1;
    }
  }

  lemma {:induction false} StandsStillExactly(s: State, ops: seq<Operation>)
    ensures StandsStill(s, ops) <==> forall i | 0 <= i <= |ops| :: ApplyOps(s, ops[..i]) == s
    decreases |ops|
  {
    hide ApplyOps;
    if |ops| == 0 {
      NothingApplied(s, ops);
      assert ops[..0] == ops;
    } else {
      var before := ops[..|ops| - 1];
      StandsStillExactly(s, before);
      assert forall i | 0 <= i <= |before| :: before[..i] == ops[..i];
      assert ops[..|ops|] == ops;
      if forall i | 0 <= i <= |ops| :: ApplyOps(s, ops[..i]) == s {
        forall i | 0 <= i <= |before| ensures ApplyOps(s, before[..i]) == s { assert before[..i] == ops[..i]; }
      }
      if StandsStill(s, ops) {
        forall i | 0 <= i <= |ops| ensures ApplyOps(s, ops[..i]) == s {
          if i < |ops| { assert before[..i] == ops[..i]; }
        }
      }
    }
  }

  lemma NothingApplied(s: State, ops: seq<Operation>)
    requires ops == []
    ensures ApplyOps(s, ops) == s
  {}

  /** What Commit decides: nothing to commit, the error of the first invalid transaction, no change when no operation
      in sequence moves the state, and otherwise a block. */
  lemma DecidesExactly(lib: Lib, c: Ledger, txs: seq<Transaction>, now: int)
    ensures var o := Decide(lib, c, txs, now);
            && (o == NoTransactions <==> txs == [])
            && (o == MissingId <==>
                exists i :: 0 <= i < |txs| && txs[i].id == [] &&
                            forall j | 0 <= j < i :: txs[j].id != [] && forall op | op in txs[j].ops :: op.key != [])
            && (o == MissingKey <==>
                exists i :: 0 <= i < |txs| && txs[i].id != [] && (exists op :: op in txs[i].ops && op.key == []) &&
                            forall j | 0 <= j < i :: txs[j].id != [] && forall op | op in txs[j].ops :: op.key != [])
            && (o == NoStateChange <==>
                && txs != [] && (forall tx | tx in txs :: tx.id != [] && forall op | op in tx.ops :: op.key != [])
                && forall i | 0 <= i <= |FlatOps(txs)| :: ApplyOps(c.state, FlatOps(txs)[..i]) == c.state)
  {
    hide FilterTxs, BuildBlock, ApplyOps, FlatOps, StandsStill;
    RefusedWhenInvalid(c.state, txs);
    if i :| 0 <= i < |txs| && Invalid(txs[i]) {
      assert txs[i] in txs;
      var k := FirstInvalid(txs);
      FirstErrorCounts(c.state, txs, k);
      OneFirst(txs, k);
    } else {
      assert forall tx | tx in txs :: !Invalid(tx);
      StandsStillExactly(c.state, FlatOps(txs));
      BatchFilter(c.state, txs);
    }
  }

  /** There is only one first invalid transaction. */
  lemma OneFirst(txs: seq<Transaction>, k: nat)
    requires k < |txs| && Invalid(txs[k])
    requires forall j | 0 <= j < k :: txs[j].id != [] && forall op | op in txs[j].ops :: op.key != []
    ensures forall i | 0 <= i < |txs| && Invalid(txs[i])
                       && forall j | 0 <= j < i :: txs[j].id != [] && forall op | op in txs[j].ops :: op.key != [] ::
              i == k
    ensures !forall tx | tx in txs :: tx.id != [] && forall op | op in tx.ops :: op.key != []
  {
    assert txs[k] in txs;
    forall i | 0 <= i < |txs| && Invalid(txs[i])
               && forall j | 0 <= j < i :: txs[j].id != [] && forall op | op in txs[j].ops :: op.key != []
      ensures i == k
    {
    }
  }

  /** Every field of a block that Commit builds. */
  lemma BuiltIs(lib: Lib, c: Ledger, txs: seq<Transaction>, now: int) returns (leaves: seq<ByteString>)
    requires Decide(lib, c, txs, now).Built?
    ensures var b := Decide(lib, c, txs, now).block;
            var h, s := b.header, ApplyOps(c.state, FlatOps(txs));
            && h.height == |c.blocks| + 1 && h.timestamp == now
            && h.prevHash == (if c.blocks == [] then [] else c.blocks[|c.blocks| - 1].header.recordHash)
            && h.recordHash == HexEncode(lib.hash(lib.jsonBlock(Block(h.(recordHash := []), b.txs))))
            && h.schema == 4 && h.compression == Ascii("zlib-fast")
            && |leaves| == |b.txs| && (forall i | 0 <= i < |b.txs| :: leaves[i] == lib.jsonTx(b.txs[i]))
            && h.txRoot == RootHex(lib.hash, leaves)
            && h.stateRoot == StateRootOf(lib.hash, s)
            && h.contractRoot
               == StateRootOf(lib.hash, map k | k in s && (Ascii("contract/") <= k || Ascii("contract-storage/") <= k
                                                           || Ascii("account/") <= k) :: s[k])
            && h.accountRoot == StateRootOf(lib.hash, map k | k in s && Ascii("account/") <= k :: s[k])
            && h.contractCodeRoot == StateRootOf(lib.hash, map k | k in s && Ascii("contract/code/") <= k :: s[k])
            && h.contractStorageRoot == StateRootOf(lib.hash, map k | k in s && Ascii("contract-storage/") <= k :: s[k])
            && h.logRoot == StateRootOf(lib.hash, map k | k in s && Ascii("log/") <= k :: s[k])
            && h.zkRoot == StateRootOf(lib.hash, map k | k in s && Ascii("zk/") <= k :: s[k])
            && h.receiptRoot == StateRootOf(lib.hash, map k | k in s && Ascii("receipt/") <= k :: s[k])
  {
    hide StateRootOf, RootHex, FilterTxs, ApplyOps, FlatOps, HexEncode, Ascii, CheckRoots, TxLeaves;
    BuiltLoads(lib, c, txs, now);
    var b := Decide(lib, c, txs, now).block;
    assert ApplyOps(c.state, FlatOps(b.txs)) == ApplyOps(c.state, FlatOps(txs));
    LoadsExactly(lib, c, b);
    ChecksAre(lib, ApplyOps(c.state, FlatOps(txs)), b.header);
    leaves := TxLeaves(lib, b.txs);
    LeavesOfTxs(lib, b.txs);
  }

  lemma LeavesOfTxs(lib: Lib, txs: seq<Transaction>)
    ensures |TxLeaves(lib, txs)| == |txs| && forall i | 0 <= i < |txs| :: TxLeaves(lib, txs)[i] == lib.jsonTx(txs[i])
  {}

  // ----- the transaction root -----

  /** The serialisation keeps these transactions apart, but for empty payloads. */
  ghost predicate JsonTxsApart(lib: Lib, xs: seq<Transaction>, ys: seq<Transaction>) {
    forall i, j | 0 <= i < |xs| && 0 <= j < |ys| && lib.jsonTx(xs[i]) == lib.jsonTx(ys[j]) ::
      xs[i].(payload := NormValue(xs[i].payload)) == ys[j].(payload := NormValue(ys[j].payload))
  }

  /** Two built blocks whose transaction trees have one height share a transaction root exactly when the texts of
      their transactions are equal once padded; with equally many transactions, exactly when these are equal but for
      empty payloads. */
  lemma TxRootsAgree(lib: Lib, c: Ledger, xs: seq<Transaction>, t: int, c': Ledger, ys: seq<Transaction>, t': int)
    requires Decide(lib, c, xs, t).Built? && Decide(lib, c', ys, t').Built? && lib.Sound()
    requires var a, b := Decide(lib, c, xs, t).block, Decide(lib, c', ys, t').block;
             && Height(|a.txs|) == Height(|b.txs|) && JsonTxsApart(lib, a.txs, b.txs)
             && CollisionFree(lib.hash, Hashed(lib.hash, TxLeaves(lib, a.txs)) + Hashed(lib.hash, TxLeaves(lib, b.txs)))
    ensures var a, b := Decide(lib, c, xs, t).block, Decide(lib, c', ys, t').block;
            && (a.header.txRoot == b.header.txRoot <==> Padded(TxLeaves(lib, a.txs)) == Padded(TxLeaves(lib, b.txs)))
            && (|a.txs| == |b.txs| ==>
                  (a.header.txRoot == b.header.txRoot <==> ShownTxs(a.txs) == ShownTxs(b.txs)))
  {
    hide RootHex, Decide, TxLeaves, Hashed, CollisionFree, Height, Padded, JsonTxsApart, ShownTxs, Lib.Sound,
         StateRootOf, ApplyOps, FlatOps, Ascii, FilterTxs, Loads;
    var a, b := Decide(lib, c, xs, t).block, Decide(lib, c', ys, t').block;
    BuiltTxRoot(lib, c, xs, t);
    BuiltTxRoot(lib, c', ys, t');
    LeavesOfTxs(lib, a.txs);
    LeavesOfTxs(lib, b.txs);
    RootsAgreePadded(lib.hash, TxLeaves(lib, a.txs), TxLeaves(lib, b.txs));
    if |a.txs| == |b.txs| {
      SameTexts(lib, a.txs, b.txs);
      if Padded(TxLeaves(lib, a.txs)) == Padded(TxLeaves(lib, b.txs)) {
        PaddedBinds(TxLeaves(lib, a.txs), TxLeaves(lib, b.txs));
      }
    }
  }

  lemma BuiltTxRoot(lib: Lib, c: Ledger, txs: seq<Transaction>, now: int)
    requires Decide(lib, c, txs, now).Built?
    ensures var b := Decide(lib, c, txs, now).block;
            b.header.txRoot == RootHex(lib.hash, TxLeaves(lib, b.txs)) && |b.txs| > 0
  {
    hide StateRootOf, RootHex, ApplyOps, FlatOps, Ascii, Loads;
    var leaves := BuiltIs(lib, c, txs, now);
    var b := Decide(lib, c, txs, now).block;
    LeavesOfTxs(lib, b.txs);
    assert leaves == TxLeaves(lib, b.txs);
    BuiltLoads(lib, c, txs, now);
  }

  lemma SameTexts(lib: Lib, xs: seq<Transaction>, ys: seq<Transaction>)
    requires lib.Sound() && |xs| == |ys| && JsonTxsApart(lib, xs, ys)
    ensures TxLeaves(lib, xs) == TxLeaves(lib, ys) <==> ShownTxs(xs) == ShownTxs(ys)
  {
    if TxLeaves(lib, xs) == TxLeaves(lib, ys) {
      forall i | 0 <= i < |xs| ensures ShownTxs(xs)[i] == ShownTxs(ys)[i] {
        assert TxLeaves(lib, xs)[i] == TxLeaves(lib, ys)[i];
      }
    }
    if ShownTxs(xs) == ShownTxs(ys) {
      forall i | 0 <= i < |xs| ensures TxLeaves(lib, xs)[i] == TxLeaves(lib, ys)[i] {
        assert lib.jsonTx(ShownTx(xs[i])) == lib.jsonTx(xs[i]) && lib.jsonTx(ShownTx(ys[i])) == lib.jsonTx(ys[i]);
        assert ShownTxs(xs)[i] == ShownTxs(ys)[i];
      }
    }
  }
}
