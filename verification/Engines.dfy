/** The engine: its chain fields updated in place over an open store. */
module Engines {
  import opened ByteStrings
  import opened Lists
  import opened Options
  import opened Merkle
  import opened Model
  import opened Writes
  import opened Chain
  import opened Frames
  import opened Log
  import opened Store
  import opened Opening
  import opened CrashSafety
  import opened Sorting
  import opened Bundles

  datatype CommitResult = Refused(why: Outcome) | Oversized(block: Block) | Committed(block: Block)

  /** What persisting a block does to the chain and the disk: the durable steps write-ahead log, rename,
      append, clear in this order; but a frame longer than a segment is refused only after its write-ahead log
      was written. */
  ghost predicate Persisted(lib: Lib, size: nat, b: Block, r: CommitResult, c: Ledger, d: Disk, es: seq<Effect>,
                            c': Ledger, d': Disk, es': seq<Effect>)
  {
    var frame := FrameOf(lib, lib.encode(b));
    && |d.segs| > 0
    && if Fits(lib, size, b) then
         && r == Committed(b) && c' == Applied(c, b)
         && d' == Disk(AppendTo(size, d.segs, frame), None, None)
         && es' == es + CommitEffects(size, d.segs, frame)
       else
         && r == Oversized(b) && c' == c
         && d' == d.(wal := Some(frame), tmp := None)
         && es' == es + [WriteTmp(frame), RenameTmp]
  }

  /** A whole Commit: a refused batch leaves no trace, any other is persisted. */
  ghost predicate CommitStep(lib: Lib, size: nat, o: Outcome, r: CommitResult, c: Ledger, d: Disk, es: seq<Effect>,
                             c': Ledger, d': Disk, es': seq<Effect>)
  {
    match o
    case Built(b) => Persisted(lib, size, b, r, c, d, es, c', d', es')
    case why => r == Refused(why) && c' == c && d' == d && es' == es
  }

  /** After some operations every key holds what the last operation on it wrote, byte for byte, or nothing when that
      deleted it; a key without an operation is as before. */
  ghost predicate Written(s: State, ops: seq<Operation>, s': State) {
    && (forall i | 0 <= i < |ops| && forall j | i < j < |ops| :: ops[j].key != ops[i].key ::
          && (ops[i].key in s' <==> !ops[i].delete)
          && (!ops[i].delete ==> s'[ops[i].key] == match ops[i].value case Nil => [] case Bytes(x) => x))
    && (forall key | forall j | 0 <= j < |ops| :: ops[j].key != key ::
          (key in s' <==> key in s) && (key in s ==> s'[key] == s[key]))
  }

  lemma AppliedIsWritten(s: State, ops: seq<Operation>)
    ensures Written(s, ops, ApplyOps(s, ops))
  {
    hide ApplyOps;
    forall i | 0 <= i < |ops| && forall j | i < j < |ops| :: ops[j].key != ops[i].key
      ensures ops[i].key in ApplyOps(s, ops) <==> !ops[i].delete
      ensures !ops[i].delete ==>
                ApplyOps(s, ops)[ops[i].key] == match ops[i].value case Nil => [] case Bytes(x) => x
    {
      LastWriteWins(s, ops, i);
    }
    forall key: ByteString | forall j | 0 <= j < |ops| :: ops[j].key != key
      ensures key in ApplyOps(s, ops) <==> key in s
      ensures key in s ==> ApplyOps(s, ops)[key] == s[key]
    {
      OthersStay(s, ops, key);
    }
  }

  /** What a commit that goes through, or has nothing to change, leaves in the state is what its batch wrote. */
  lemma StepWrites(lib: Lib, size: nat, txs: seq<Transaction>, now: int, r: CommitResult, c: Ledger, d: Disk,
                   es: seq<Effect>, c': Ledger, d': Disk, es': seq<Effect>)
    requires CommitStep(lib, size, Decide(lib, c, txs, now), r, c, d, es, c', d', es')
    requires r.Committed? || r == Refused(NoStateChange)
    ensures c'.state == ApplyOps(c.state, FlatOps(txs)) && Written(c.state, FlatOps(txs), c'.state)
  {
    hide ApplyOps, FlatOps, FilterTxs, BuildBlock, Loads, FrameOf, CommitEffects, AppendTo, Written, Fits;
    AppliedIsWritten(c.state, FlatOps(txs));
    if Decide(lib, c, txs, now).Built? {
      BuiltLoads(lib, c, txs, now);
    } else {
      BatchFilter(c.state, txs);
      NothingKept(c.state, FlatOps(txs));
    }
  }

  /** The value that the last of some operations on a key leaves. */
  ghost predicate LastOn(ops: seq<Operation>, key: ByteString, v: Option<ByteString>) {
    && ((forall j | 0 <= j < |ops| :: ops[j].key != key) ==> v == None)
    && (forall i | 0 <= i < |ops| && ops[i].key == key && forall j | i < j < |ops| :: ops[j].key != key ::
          v == if ops[i].delete then None else Some(match ops[i].value case Nil => [] case Bytes(x) => x))
  }

  lemma LookupIsLast(bs: seq<Block>, key: ByteString)
    ensures LastOn(FlatBlocks(bs), key, Lookup(Replay(bs), key))
  {
    hide Replay, FlatBlocks, ApplyOps;
    ReplayIsFlat(bs);
    AppliedIsWritten(map[], FlatBlocks(bs));
  }

  class Engine {
    const lib: Lib
    /** Absent in the scratch engine that Verify replays into. */
    const store: Files?
    var blocks: seq<Block>
    var state: State
    var versions: Versions
    var txCount: nat
    var opCount: nat

    function Chained(): Ledger
      reads this
    {
      Ledger(blocks, state, versions, txCount, opCount)
    }

    /** The fields are what replaying the blocks from nothing gives. */
    ghost predicate Consistent()
      reads this
    {
      LoadAll(lib, blocks) == Some(Chained())
    }

    ghost predicate Valid()
      reads this, store
    {
      && store != null && store.lib == lib && store.Ready()
      && Consistent()
    }

    /** The disk holds exactly the blocks, as it keeps them. */
    ghost predicate Durable()
      reads this, store
    {
      store != null && store.Valid() && LogBlocks(lib, store.disk.segs) == NormAll(blocks)
    }

    constructor (lib: Lib, store: Files?)
      ensures this.lib == lib && this.store == store && Chained() == EMPTY
    {
      this.lib, this.store := lib, store;
      blocks, state, versions, txCount, opCount := [], map[], map[], 0, 0;
    }

    method ApplyEach(height: nat, ops: seq<Operation>)
      modifies this`state, this`versions
      ensures state == ApplyOps(old(state), ops) && versions == Recorded(old(versions), height, ops)
    {
      assert ops[..0] == [];
      for j := 0 to |ops|
        invariant state == ApplyOps(old(state), ops[..j]) && versions == Recorded(old(versions), height, ops[..j])
      {
        var op := ops[j];
        TakeMore(ops, j);
        if op.delete { state := state - {op.key}; } else { state := state[op.key := Raw(op.value)]; }
        versions := versions[op.key := History(versions, op.key) + [Version(height, Raw(op.value), op.delete)]];
      }
      assert ops[..|ops|] == ops;
    }

    /** The loops that put the operations of a block into the state and the version index. */
    method ApplyTxs(height: nat, txs: seq<Transaction>)
      modifies this`state, this`versions
      ensures state == ApplyOps(old(state), FlatOps(txs))
      ensures versions == Recorded(old(versions), height, FlatOps(txs))
    {
      assert txs[..0] == [];
      for i := 0 to |txs|
        invariant state == ApplyOps(old(state), FlatOps(txs[..i]))
        invariant versions == Recorded(old(versions), height, FlatOps(txs[..i]))
      {
        TakeMore(txs, i);
        FlatSnoc(txs[..i], txs[i]);
        ApplySplit(old(state), FlatOps(txs[..i]), txs[i].ops);
        RecordedSplit(old(versions), height, FlatOps(txs[..i]), txs[i].ops);
        ApplyEach(height, txs[i].ops);
      }
      assert txs[..|txs|] == txs;
    }

    method ContractAggregateRoot(s: State) returns (r: ByteString)
      ensures r == StateRootOf(lib.hash, DomainPart(Contract, s))
    {
      var merged: State := map[];
      var todo := s.Keys;
      while todo != {}
        invariant todo <= s.Keys
        invariant merged == map k | k in s && k !in todo && InDomain(Contract, k) :: s[k]
      {
        var k :| k in todo;
        if CONTRACT <= k || CONTRACT_STORAGE <= k || ACCOUNT <= k { merged := merged[k := s[k]]; }
        todo := todo - {k};
      }
      assert merged == DomainPart(Contract, s);
      r := StateRoot(lib.hash, merged);
    }

    method CheckRootsOf(h: Header) returns (err: LoadError)
      ensures err == CheckRoots(lib, state, h)
    {
      var root := StateRoot(lib.hash, state);
      if root != h.stateRoot { return StateRootMismatch; }
      if h.schema >= 3 {
        root := PrefixRoot(lib.hash, state, CONTRACT);
        if h.schema >= 4 { root := ContractAggregateRoot(state); }
        if root != h.contractRoot { return ContractMismatch; }
        if h.schema >= 4 {
          root := PrefixRoot(lib.hash, state, ACCOUNT);
          if root != h.accountRoot { return AccountMismatch; }
          root := PrefixRoot(lib.hash, state, CONTRACT_CODE);
          if root != h.contractCodeRoot { return CodeMismatch; }
          root := PrefixRoot(lib.hash, state, CONTRACT_STORAGE);
          if root != h.contractStorageRoot { return StorageMismatch; }
          root := PrefixRoot(lib.hash, state, LOG);
          if root != h.logRoot { return LogMismatch; }
        }
        root := PrefixRoot(lib.hash, state, ZK);
        if root != h.zkRoot { return ZkMismatch; }
        root := PrefixRoot(lib.hash, state, RECEIPT);
        if root != h.receiptRoot { return ReceiptMismatch; }
      }
      err := Fine;
    }

    /** applyLoaded: a block that fails a root check has already changed state and versions, but is not
        added. */
    method ApplyLoaded(b: Block) returns (err: LoadError)
      modifies this
      ensures err == Fine <==> Loads(lib, old(Chained()), b)
      ensures err == Fine ==> Chained() == Applied(old(Chained()), b)
      ensures err != Fine ==> blocks == old(blocks) && txCount == old(txCount) && opCount == old(opCount)
      ensures CheckLinks(lib, old(blocks), b) != Fine ==>
                err == CheckLinks(lib, old(blocks), b) && Chained() == old(Chained())
      ensures CheckLinks(lib, old(blocks), b) == Fine ==>
                && state == ApplyOps(old(state), FlatOps(b.txs))
                && versions == Recorded(old(versions), b.header.height, FlatOps(b.txs))
                && err == CheckRoots(lib, state, b.header)
    {
      hide CheckRoots, HashBlock, ApplyOps, Recorded;
      if b.header.height != |blocks| + 1 { return HeightGap; }
      var prev := [];
      if |blocks| > 0 { prev := blocks[|blocks| - 1].header.recordHash; }
      if b.header.prevHash != prev { return PrevMismatch; }
      if HashBlock(lib, b) != b.header.recordHash { return HashMismatch; }
      ApplyTxs(b.header.height, b.txs);
      err := CheckRootsOf(b.header);
      if err != Fine { return; }
      Count(b.txs);
      blocks := blocks + [b];
    }

    method Count(txs: seq<Transaction>)
      modifies this`txCount, this`opCount
      ensures txCount == old(txCount) + |txs| && opCount == old(opCount) + |FlatOps(txs)|
    {
      assert txs[..0] == [];
      for i := 0 to |txs|
        invariant txCount == old(txCount) + i && opCount == old(opCount) + |FlatOps(txs[..i])|
      {
        TakeMore(txs, i);
        FlatSnoc(txs[..i], txs[i]);
        txCount := txCount + 1;
        opCount := opCount + |txs[i].ops|;
      }
      assert txs[..|txs|] == txs;
    }

    // ----- committing -----

    method FilterOps(s: State, ops: seq<Operation>) returns (kept: seq<Operation>, next: State, emptyKey: bool)
      ensures emptyKey <==> HasEmptyKey(ops)
      ensures !emptyKey ==> kept == KeptOps(s, ops) && next == ApplyOps(s, ops)
    {
      kept, next := [], s;
      assert ops[..0] == [];
      for j := 0 to |ops|
        invariant forall op | op in ops[..j] :: op.key != []
        invariant kept == KeptOps(s, ops[..j]) && next == ApplyOps(s, ops[..j])
      {
        var op := ops[j];
        TakeMore(ops, j);
        EffectiveMeansChange(next, op);
        if op.key == [] { return kept, next, true; }
        if op.delete {
          if op.key in next {
            next := next - {op.key};
            kept := kept + [op];
          }
        } else if !(op.key in next && next[op.key] == Raw(op.value)) {
          next := next[op.key := Raw(op.value)];
          kept := kept + [op];
        }
      }
      assert ops[..|ops|] == ops;
      emptyKey := false;
    }

    /** The filter loop of Commit, against a copy of the state. */
    method FilterBatch(txs: seq<Transaction>) returns (f: Filtered)
      ensures f == FilterTxs(state, txs)
    {
      var next, done := state, [];
      assert txs[..0] == [];
      for i := 0 to |txs|
        invariant FilterTxs(state, txs[..i]) == Kept(done, next)
      {
        var tx := txs[i];
        TakeMore(txs, i);
        var kept, after, emptyKey := FilterOps(next, tx.ops);
        if tx.id == [] {
          ErrorsStick(state, txs, i + 1);
          return BadId;
        }
        if emptyKey {
          ErrorsStick(state, txs, i + 1);
          return BadKey;
        }
        if |kept| != 0 { done := done + [tx.(ops := kept)]; }
        next := after;
      }
      assert txs[..|txs|] == txs;
      f := Kept(done, next);
    }

    method Build(kept: seq<Transaction>, next: State, now: int) returns (b: Block)
      ensures b == BuildBlock(lib, blocks, kept, next, now)
    {
      hide StateRootOf, PrefixRootOf, HashBlock, RootHex;
      var prev := [];
      if |blocks| > 0 { prev := blocks[|blocks| - 1].header.recordHash; }
      var txRoot := Root(lib.hash, TxLeaves(lib, kept));
      var stateRoot := StateRoot(lib.hash, next);
      var contractRoot := ContractAggregateRoot(next);
      var accountRoot := PrefixRoot(lib.hash, next, ACCOUNT);
      var codeRoot := PrefixRoot(lib.hash, next, CONTRACT_CODE);
      var storageRoot := PrefixRoot(lib.hash, next, CONTRACT_STORAGE);
      var logRoot := PrefixRoot(lib.hash, next, LOG);
      var zkRoot := PrefixRoot(lib.hash, next, ZK);
      var receiptRoot := PrefixRoot(lib.hash, next, RECEIPT);
      b := Block(Header(|blocks| + 1, now, prev, txRoot, stateRoot, contractRoot, accountRoot, codeRoot, storageRoot,
                        logRoot, zkRoot, receiptRoot, [], SCHEMA, COMPRESSION), kept);
      b := b.(header := b.header.(recordHash := HashBlock(lib, b)));
    }

    /** Commit decides as the specification does, leaves no trace of a refused batch, and otherwise persists
        the block it built. */
    method Commit(txs: seq<Transaction>, now: int) returns (r: CommitResult)
      requires Valid()
      modifies this, store
      ensures Valid()
      ensures CommitStep(lib, store.segmentSize, Decide(lib, old(Chained()), txs, now), r,
                         old(Chained()), old(store.disk), old(store.effects), Chained(), store.disk, store.effects)
      ensures old(Durable()) ==> Durable()
      ensures r.Committed? || r == Refused(NoStateChange) ==>
                var ops := FlatOps(txs);
                && (forall i | 0 <= i < |ops| && forall j | i < j < |ops| :: ops[j].key != ops[i].key ::
                      && (ops[i].key in state <==> !ops[i].delete)
                      && (!ops[i].delete ==>
                            state[ops[i].key] == match ops[i].value case Nil => [] case Bytes(x) => x))
                && (forall key | forall j | 0 <= j < |ops| :: ops[j].key != key ::
                      (key in state <==> key in old(state)) && (key in state ==> state[key] == old(state)[key]))
    {
      hide Persisted, LoadAll, Loads, BuildBlock, LogBlocks, CleanLog, IndexOf, ApplyOps, FilterTxs, FlatOps, Decide,
           CommitStep;
      ghost var c := Chained();
      r := Decided(txs, now);
      if r.Committed? || r == Refused(NoStateChange) {
        StepWrites(lib, store.segmentSize, txs, now, r, c, old(store.disk), old(store.effects),
                   Chained(), store.disk, store.effects);
      }
    }

    method Decided(txs: seq<Transaction>, now: int) returns (r: CommitResult)
      requires Valid()
      modifies this, store
      ensures Valid()
      ensures CommitStep(lib, store.segmentSize, Decide(lib, old(Chained()), txs, now), r,
                         old(Chained()), old(store.disk), old(store.effects), Chained(), store.disk, store.effects)
      ensures old(Durable()) ==> Durable()
    {
      hide Persisted, LoadAll, Loads, BuildBlock, LogBlocks, CleanLog, IndexOf, ApplyOps, FilterTxs;
      if |txs| == 0 { return Refused(NoTransactions); }
      var f := FilterBatch(txs);
      if f.BadId? { return Refused(MissingId); }
      if f.BadKey? { return Refused(MissingKey); }
      if |f.txs| == 0 { return Refused(NoStateChange); }
      var b := Build(f.txs, f.state, now);
      BuiltLoads(lib, Chained(), txs, now);
      r := Persist(b);
    }

    /** The part of Commit that follows the decision. */
    method Persist(b: Block) returns (r: CommitResult)
      requires Valid() && Loads(lib, Chained(), b)
      modifies this, store
      ensures Valid()
      ensures Persisted(lib, store.segmentSize, b, r, old(Chained()), old(store.disk), old(store.effects),
                        Chained(), store.disk, store.effects)
      ensures old(Durable()) ==> Durable()
    {
      hide FrameOf, Fits, Loads, AppendTo, AppendEffects, LogBlocks, CleanLog, IndexOf, NormAll, LoadAll, Applied;
      ghost var c := Chained();
      ghost var durable := Durable();
      store.WriteWAL(b);
      assert durable ==> store.Valid();
      var ok := store.AppendBlock(b);
      if !ok { return Oversized(b); }
      Accept(b);
      NormSnoc(c.blocks, b);
      store.ClearWAL();
      r := Committed(b);
    }

    /** Taking a block into memory. */
    method Accept(b: Block)
      requires Consistent() && Loads(lib, Chained(), b)
      modifies this
      ensures Chained() == Applied(old(Chained()), b) && blocks == old(blocks) + [b]
      ensures Consistent()
    {
      hide Loads, ApplyOps, Recorded, FlatOps;
      ghost var c := Chained();
      ApplyTxs(b.header.height, b.txs);
      Count(b.txs);
      blocks := blocks + [b];
      LoadSnoc(lib, c.blocks, b);
    }

    // ----- batches and bundles -----

    /** NewTransaction for each operation of a batch; ids and times come from outside. */
    method Singles(ops: seq<Operation>, sender: ByteString, start: nat, ids: nat -> ByteString, times: nat -> int)
      returns (txs: seq<Transaction>)
      ensures SingleOps(txs, ops)
      ensures forall i | 0 <= i < |txs| ::
                txs[i] == Transaction(ids(start + i), times(start + i), sender, start + i, [ops[i]], Nil, [])
      ensures (forall i :: ids(i) != []) ==> forall i | 0 <= i < |txs| :: txs[i].id != []
    {
      txs := [];
      for i := 0 to |ops|
        invariant |txs| == i
        invariant forall j | 0 <= j < i ::
                    txs[j] == Transaction(ids(start + j), times(start + j), sender, start + j, [ops[j]], Nil, [])
      {
        txs := txs + [Transaction(ids(start + i), times(start + i), sender, start + i, [ops[i]], Nil, [])];
      }
    }

    /** One batch of CommitOperations. */
    method CommitBatch(chunk: seq<Operation>, sender: ByteString, start: nat, ids: nat -> ByteString, times: nat -> int)
      returns (r: CommitResult)
      requires Valid() && |chunk| > 0 && forall i :: ids(i) != []
      modifies this, store
      ensures Valid() && (old(Durable()) ==> Durable())
      ensures match r
              case Committed(b) => && Chained() == Applied(old(Chained()), b) && TakesChunk(old(state), chunk, b)
                                   && FromChunk(b.txs, chunk, sender, start, ids, times)
              case _ => Chained() == old(Chained())
      ensures HasEmptyKey(chunk) <==> r == Refused(MissingKey)
      ensures r == Refused(NoStateChange) ==>
                KeptOps(old(state), chunk) == [] && ApplyOps(old(state), chunk) == old(state)
      ensures r.Refused? ==> r.why == MissingKey || r.why == NoStateChange
    {
      hide LoadAll, Decide, LogBlocks, CleanLog, IndexOf, SingleOps, HasEmptyKey, FrameOf, AppendTo, CommitEffects,
           FromChunk, FlatOps;
      var txs := Singles(chunk, sender, start, ids, times);
      SinglesDecide(lib, Chained(), txs, chunk, times(start));
      SinglesStay(lib, Chained(), txs, chunk, sender, start, ids, times);
      r := Commit(txs, times(start));
    }

    /** Commits operations in batches. The batch size says where blocks begin and nothing else: it does not occur in
        what the call does to the state, to the operations kept or to their count; batches that change nothing
        leave no block. */
    method CommitOperations(ops: seq<Operation>, sender: ByteString, batchSize: int,
                            ids: nat -> ByteString, times: nat -> int)
      returns (bs: seq<Block>, err: Option<CommitResult>, ghost starts: seq<nat>, ghost done: nat)
      requires Valid() && forall i :: ids(i) != []
      modifies this, store
      ensures Valid() && (old(Durable()) ==> Durable())
      ensures blocks == old(blocks) + bs && forall b | b in bs :: FlatOps(b.txs) != []
      ensures err.None? ==>
                && state == ApplyOps(old(state), ops)
                && FlatBlocks(bs) == KeptOps(old(state), ops)
                && opCount == old(opCount) + |KeptOps(old(state), ops)|
      ensures err.Some? ==> err.value.Oversized? || (err.value == Refused(MissingKey) && HasEmptyKey(ops))
      ensures HasEmptyKey(ops) ==> err.Some?
      // Up to a failing batch: one block for each batch that has an effect, of its operations one by one.
      ensures done <= |ops| && (err.None? ==> done == |ops|) && |starts| == |bs|
      ensures state == ApplyOps(old(state), ops[..done])
      ensures forall i, j | 0 <= i < j < |bs| :: starts[i] < starts[j]
      ensures forall j | 0 <= j < |bs| ::
                var n: int := if batchSize <= 0 then 1000 else batchSize;
                var end := if starts[j] + n > |ops| then |ops| else starts[j] + n;
                && starts[j] % n == 0 && starts[j] < end && end <= done
                && FlatOps(bs[j].txs) == KeptOps(ApplyOps(old(state), ops[..starts[j]]), ops[starts[j]..end])
                && forall t | t in bs[j].txs ::
                     && starts[j] <= t.nonce < end
                     && t == Transaction(ids(t.nonce), times(t.nonce), sender, t.nonce, [ops[t.nonce]], Nil, [])
    {
      hide LoadAll, LogBlocks, CleanLog, IndexOf, HasEmptyKey, Absorbed, TakesChunk, Applied, ApplyOps, KeptOps,
           FlatOps, Batches, FromChunk;
      var batch := if batchSize <= 0 then 1000 else batchSize;
      bs, starts, done := [], [], 0;
      var start := 0;
      ghost var c0 := Chained();
      NothingAbsorbed(c0);
      assert ops[..0] == [];
      NoBatches(c0.state, ops, batch, sender, ids, times);
      while start < |ops|
        invariant start == done <= |ops| && Valid() && (old(Durable()) ==> Durable())
        invariant start < |ops| ==> start % batch == 0
        invariant !HasEmptyKey(ops[..start])
        invariant Absorbed(ops[..start], bs, c0, Chained())
        invariant Batches(c0.state, ops, batch, start, bs, starts, sender, ids, times)
      {
        var end := if start + batch > |ops| then |ops| else start + batch;
        var chunk := ops[start..end];
        EmptyKeyIn(ops, start, end);
        ghost var c := Chained();
        AbsorbedBlocks(ops[..start], bs, c0, c);
        var r := CommitBatch(chunk, sender, start, ids, times);
        if r.Committed? {
          GrowingBatch(ops[..start], chunk, bs, r.block, c0, c, Chained());
          OneMoreBatch(c0.state, ops, batch, start, end, bs, starts, r.block, sender, ids, times);
          bs, starts := bs + [r.block], starts + [start];
        } else if r == Refused(NoStateChange) {
          IdleBatch(ops[..start], chunk, bs, c0, c);
          LaterBatches(c0.state, ops, batch, start, end, bs, starts, sender, ids, times);
        } else {
          BatchesAre(c0.state, ops, batch, start, bs, starts, sender, ids, times);
          return bs, Some(r), starts, start;
        }
        NextMultiple(start, batch);
        start, done := end, end;
      }
      assert ops[..start] == ops;
      AbsorbedBlocks(ops, bs, c0, Chained());
      BatchesAre(c0.state, ops, batch, start, bs, starts, sender, ids, times);
      err := None;
    }

    /** Ranging over the keys of a map. */
    method AnyOrder(m: map<ByteString, ByteString>) returns (order: seq<ByteString>)
      ensures multiset(order) == multiset(m.Keys)
    {
      var todo := m.Keys;
      order := [];
      while todo != {}
        invariant todo <= m.Keys && multiset(order) == multiset(m.Keys - todo)
      {
        var k :| k in todo;
        assert m.Keys - (todo - {k}) == (m.Keys - todo) + {k};
        order := order + [k];
        todo := todo - {k};
      }
      assert m.Keys - todo == m.Keys;
    }

    /** The operations of one map of a bundle, in whatever order the map is ranged over. */
    method GatherPart(x: Bundle, p: Part) returns (ops: seq<Operation>, valid: bool)
      ensures valid <==> PartIsValid(lib, x, p)
      ensures valid ==> multiset(ops) == multiset(SomeOps(lib, x, p))
    {
      hide SomeOps, KeyOf;
      var m := Members(x, p);
      var order := AnyOrder(m);
      SameOpsInAnyOrder(lib, x, p, order);
      ops := [];
      for i := 0 to |order|
        invariant ops == OpsAlong(lib, x, p, order)[..i]
        invariant MustBeJson(p) ==> forall j | 0 <= j < i :: lib.validJson(m[order[j]])
      {
        if MustBeJson(p) && !lib.validJson(m[order[i]]) { return ops, false; }
        ops := ops + [Operation(KeyOf(lib, p, order[i]), Bytes(m[order[i]]), false)];
      }
      assert ops == OpsAlong(lib, x, p, order);
      forall k | k in m ensures k in order {
        assert k in multiset(order);
      }
      valid := true;
    }

    method Gather(x: Bundle) returns (ops: seq<Operation>, valid: bool)
      ensures valid <==> BundleIsValid(lib, x)
      ensures valid ==> multiset(ops) == multiset(SomeBundleOps(lib, x, |PARTS|))
    {
      hide SomeOps, PartIsValid;
      ops := [];
      for i := 0 to |PARTS|
        invariant multiset(ops) == multiset(SomeBundleOps(lib, x, i))
        invariant forall j | 0 <= j < i :: PartIsValid(lib, x, PARTS[j])
      {
        var part;
        part, valid := GatherPart(x, PARTS[i]);
        if !valid { return; }
        ops := ops + part;
      }
      valid := true;
    }

    /** sort.Slice by key: some ascending arrangement. */
    method SortByKey(ops: seq<Operation>) returns (r: seq<Operation>)
      ensures multiset(r) == multiset(ops) && Ascending(r, KeyAtMost)
    {
      KeyOrder();
      SortSorts(ops, KeyAtMost);
      r := Sort(ops, KeyAtMost);
    }

    /** A bundle commits one transaction with its sorted operations, and nothing when a member is not JSON.
        With distinct keys that list is a function of the bundle alone. */
    method CommitExecution(x: Bundle, newId: ByteString, time: int, now: int)
      returns (r: Option<CommitResult>, ghost ops: seq<Operation>)
      requires Valid()
      modifies this, store
      ensures Valid()
      ensures old(Durable()) ==> Durable()
      ensures r.None? <==>
              || (exists k :: k in x.accounts && !lib.validJson(x.accounts[k]))
              || (exists k :: k in x.receipts && !lib.validJson(x.receipts[k]))
              || (exists k :: k in x.logs && !lib.validJson(x.logs[k]))
      ensures r.None? ==>
                && Chained() == old(Chained())
                && store.disk == old(store.disk) && store.effects == old(store.effects)
      ensures r.Some? ==>
                && multiset(ops) == multiset(SomeBundleOps(lib, x, |PARTS|)) && Ascending(ops, KeyAtMost)
                && (forall i, j | 0 <= i < j < |ops| :: AtMost(ops[i].key, ops[j].key))
                && (KeysDistinct(lib, x) ==> ops == BundleOps(lib, x))
                && StandsFor(lib, x, ops)
                && (r.value.Committed? || r.value == Refused(NoStateChange) ==>
                      forall op | op in ops && forall o | o in ops && o.key == op.key :: o == op ::
                        op.key in state && op.value == Bytes(state[op.key]))
                && (r.value.Committed? ==>
                      r.value.block.txs ==
                      [Transaction(if x.blockId == [] then newId else x.blockId, time, x.sender, x.nonce,
                                   KeptOps(old(state), ops), Nil, Ascii("execution_block"))])
                && CommitStep(lib, store.segmentSize,
                              Decide(lib, old(Chained()), [BundleTx(x, newId, time, ops)], now), r.value,
                              old(Chained()), old(store.disk), old(store.effects), Chained(), store.disk, store.effects)
    {
      hide LoadAll, Loads, LogBlocks, CleanLog, IndexOf, Decide, CommitStep, SomeBundleOps, BundleIsValid,
           KeysDistinct, Written, Ascii, KeptOps, AtMost, BundleTx, FlatOps, StandsFor, Ascending;
      ops := [];
      ValidExactly(lib, x);
      var all, valid := Gather(x);
      if !valid { return None, []; }
      var sorted := SortByKey(all);
      if KeysDistinct(lib, x) { OrderDoesNotMatter(lib, x, sorted); }
      ArrangementStandsFor(lib, x, sorted);
      SortedByKey(sorted);
      ghost var c := Chained();
      var done := Commit([BundleTx(x, newId, time, sorted)], now);
      BundleCommitted(lib, store.segmentSize, x, newId, time, sorted, now, done, c, old(store.disk), old(store.effects),
                      Chained(), store.disk, store.effects);
      r, ops := Some(done), sorted;
    }

    // ----- reading -----

    method Get(key: ByteString) returns (v: Option<ByteString>)
      requires Valid()
      ensures v == Lookup(Replay(blocks), key)
      ensures var ops := FlatBlocks(blocks);
              && ((forall j | 0 <= j < |ops| :: ops[j].key != key) ==> v == None)
              && (forall i | 0 <= i < |ops| && ops[i].key == key && forall j | i < j < |ops| :: ops[j].key != key ::
                    v == if ops[i].delete then None else Some(match ops[i].value case Nil => [] case Bytes(x) => x))
    {
      hide Loads, CheckRoots, FlatBlocks, LoadAll, Replay;
      LoadedLedger(lib, blocks);
      LookupIsLast(blocks, key);
      v := if key in state then Some(state[key]) else None;
    }

    /** The backward scan of GetAt finds what replaying the first blocks up to the height would leave. */
    method GetAt(key: ByteString, height: nat) returns (v: Option<ByteString>)
      requires Valid()
      ensures v == Lookup(Replay(blocks[..if height < |blocks| then height else |blocks|]), key)
      ensures var ops := FlatBlocks(blocks[..if height < |blocks| then height else |blocks|]);
              && ((forall j | 0 <= j < |ops| :: ops[j].key != key) ==> v == None)
              && (forall i | 0 <= i < |ops| && ops[i].key == key && forall j | i < j < |ops| :: ops[j].key != key ::
                    v == if ops[i].delete then None else Some(match ops[i].value case Nil => [] case Bytes(x) => x))
    {
      hide LoadAll, Replay, VersionsOf, FlatBlocks;
      LoadedLedger(lib, blocks);
      LookupIsLast(blocks[..if height < |blocks| then height else |blocks|], key);
      ReadsAreReplays(blocks, key, height);
      var list := History(versions, key);
      var i := |list|;
      assert list[..i] == list;
      while i > 0
        invariant i <= |list|
        invariant LookupAt(list, height) == LookupAt(list[..i], height)
      {
        i := i - 1;
        TakeMore(list, i);
        if list[i].height <= height {
          if list[i].deleted { return None; }
          return Some(list[i].value);
        }
      }
      v := None;
    }

    /** Replays every block into a scratch engine; a consistent engine always passes. */
    method Verify() returns (ok: bool)
      ensures ok <==> LoadAll(lib, blocks).Some?
      ensures Consistent() ==> ok
    {
      hide LoadAll, Loads;
      var temp := new Engine(lib, null);
      EmptyLoads(lib);
      assert blocks[..0] == [];
      for i := 0 to |blocks|
        invariant fresh(temp) && temp.lib == lib && LoadAll(lib, blocks[..i]) == Some(temp.Chained())
      {
        TakeMore(blocks, i);
        LoadSnoc(lib, blocks[..i], blocks[i]);
        var err := temp.ApplyLoaded(blocks[i]);
        if err != Fine {
          if LoadAll(lib, blocks).Some? { PrefixLoads(lib, blocks, i + 1); }
          return false;
        }
      }
      assert blocks[..|blocks|] == blocks;
      ok := true;
    }

    // ----- opening -----

    /** Replays a list of loaded blocks into an empty engine. */
    method LoadBlocks(bs: seq<Block>) returns (ok: bool)
      requires Chained() == EMPTY
      modifies this
      ensures ok <==> LoadAll(lib, bs).Some?
      ensures ok ==> LoadAll(lib, bs) == Some(Chained())
    {
      hide LoadAll, Loads;
      EmptyLoads(lib);
      assert bs[..0] == [];
      for i := 0 to |bs|
        invariant LoadAll(lib, bs[..i]) == Some(Chained())
      {
        TakeMore(bs, i);
        LoadSnoc(lib, bs[..i], bs[i]);
        var err := ApplyLoaded(bs[i]);
        if err != Fine {
          if LoadAll(lib, bs).Some? { PrefixLoads(lib, bs, i + 1); }
          return false;
        }
      }
      assert bs[..|bs|] == bs;
      ok := true;
    }

    /** The end of Open: replay or drop the write-ahead log. */
    method FinishOpening() returns (ok: bool)
      requires Valid()
      modifies this, store
      ensures var r := FinishOpen(lib, store.segmentSize, old(store.disk), old(Chained()), old(store.effects));
              && (ok <==> r.Opens?)
              && (ok ==> Valid() && r == Opens(Chained(), store.disk, store.effects))
      ensures ok && old(store.Valid()) ==> store.Valid()
    {
      hide FrameOf, Fits, Loads, LoadAll, AppendTo, AppendEffects, WalOf, Applied, CleanLog, IndexOf;
      var wal := store.ReadWAL();
      if wal.NoWal? { return true; }
      if wal.BadWal? { return false; }
      var w := wal.block;
      if |blocks| == 0 || blocks[|blocks| - 1].header.recordHash != w.header.recordHash {
        ok := ReplayWal(w);
        if !ok { return; }
      }
      store.ClearWAL();
      ok := true;
    }

    method ReplayWal(w: Block) returns (ok: bool)
      requires Valid()
      modifies this, store
      ensures ok <==> Fits(lib, store.segmentSize, w) && Loads(lib, old(Chained()), w)
      ensures ok && old(store.Valid()) ==> store.Valid()
      ensures ok ==>
                var frame := FrameOf(lib, lib.encode(w));
                && Valid() && Chained() == Applied(old(Chained()), w)
                && store.disk == old(store.disk).(segs := AppendTo(store.segmentSize, old(store.disk.segs), frame))
                && store.effects == old(store.effects) + AppendEffects(store.segmentSize, old(store.disk.segs), frame)
    {
      hide FrameOf, Fits, Loads, LoadAll, AppendTo, AppendEffects, Recorded, ApplyOps, CheckLinks, CheckRoots,
           CleanLog, IndexOf, LogBlocks;
      LoadSnoc(lib, blocks, w);
      ok := store.AppendBlock(w);
      if !ok { return; }
      var err := ApplyLoaded(w);
      ok := err == Fine;
    }

    /** Opening a directory gives exactly what the specification says, whatever bytes are in it; a recoverable
        directory gives its list of blocks, on disk and in memory. */
    static method Open(lib: Lib, segmentSize: nat, disk: Disk) returns (e: Engine, ok: bool)
      ensures fresh(e) && e.lib == lib
      ensures ok <==> OpenDisk(lib, segmentSize, disk).Opens?
      ensures ok ==> && e.Valid() && fresh(e.store) && e.store.segmentSize == segmentSize
                     && OpenDisk(lib, segmentSize, disk) == Opens(e.Chained(), e.store.disk, e.store.effects)
      ensures lib.Sound() && segmentSize <= MAX_RECORD ==>
                forall bs | Recoverable(lib, segmentSize, disk, bs) :: ok && e.blocks == bs && e.Durable()
    {
      e, ok := OpenChecked(lib, segmentSize, disk);
      if lib.Sound() && segmentSize <= MAX_RECORD {
        forall bs | Recoverable(lib, segmentSize, disk, bs) ensures ok && e.blocks == bs && e.Durable() {
          RecoverableGives(lib, segmentSize, disk, bs);
        }
      }
    }

    static method OpenChecked(lib: Lib, segmentSize: nat, disk: Disk) returns (e: Engine, ok: bool)
      ensures fresh(e) && e.lib == lib
      ensures ok <==> OpenDisk(lib, segmentSize, disk).Opens?
      ensures ok ==> && e.Valid() && fresh(e.store) && e.store.segmentSize == segmentSize
                     && OpenDisk(lib, segmentSize, disk) == Opens(e.Chained(), e.store.disk, e.store.effects)
                     && (lib.Sound() && segmentSize <= MAX_RECORD && CleanLog(lib, Opened(lib, disk).0.segs) ==>
                           e.store.Valid())
    {
      hide Recover, ReadAllOf, LoadAll, FinishOpen, CleanLog, IndexOf;
      var f;
      f, ok := Files.Open(lib, segmentSize, disk);
      e := new Engine(lib, f);
      if !ok { return; }
      var bs := f.ReadAll();
      if bs.None? { return e, false; }
      ok := e.LoadBlocks(bs.value);
      if !ok { return; }
      LoadedBlocksAre(lib, bs.value);
      ok := e.FinishOpening();
    }
  }

  const EXECUTION := Ascii("execution_block")

  function BundleTx(x: Bundle, newId: ByteString, time: int, ops: seq<Operation>): Transaction {
    Transaction(if x.blockId != [] then x.blockId else newId, time, x.sender, x.nonce, ops, Nil, EXECUTION)
  }

  /** The one transaction that a bundle commits, and that its members can be read afterwards. */
  lemma BundleCommitted(lib: Lib, size: nat, x: Bundle, newId: ByteString, time: int, ops: seq<Operation>, now: int,
                        r: CommitResult, c: Ledger, d: Disk, es: seq<Effect>, c': Ledger, d': Disk, es': seq<Effect>)
    requires CommitStep(lib, size, Decide(lib, c, [BundleTx(x, newId, time, ops)], now), r, c, d, es, c', d', es')
    requires forall op | op in ops :: op.value.Bytes? && !op.delete
    ensures r.Committed? || r == Refused(NoStateChange) ==>
              forall op | op in ops && forall o | o in ops && o.key == op.key :: o == op ::
                op.key in c'.state && op.value == Bytes(c'.state[op.key])
    ensures r.Committed? ==>
              r.block.txs == [Transaction(if x.blockId == [] then newId else x.blockId, time, x.sender, x.nonce,
                                          KeptOps(c.state, ops), Nil, Ascii("execution_block"))]
  {
    hide Decide, CommitStep, Written, FlatOps, KeptOps, Ascii;
    var tx := BundleTx(x, newId, time, ops);
    OneTxFlat(tx);
    if r.Committed? || r == Refused(NoStateChange) {
      StepWrites(lib, size, [tx], now, r, c, d, es, c', d', es');
      WrittenOnce(c.state, ops, c'.state);
    }
    if r.Committed? { CommittedTx(lib, size, tx, now, r, c, d, es, c', d', es'); }
  }

  lemma SortedByKey(ops: seq<Operation>)
    requires Ascending(ops, KeyAtMost)
    ensures forall i, j | 0 <= i < j < |ops| :: AtMost(ops[i].key, ops[j].key)
  {
    hide AtMost;
  }

  lemma OneTxFlat(tx: Transaction)
    ensures FlatOps([tx]) == tx.ops
  {
    FlatSnoc([], tx);
    assert [] + [tx] == [tx] && [] + tx.ops == tx.ops;
  }

  /** What is written to a key by one and the same operation only is there afterwards. */
  lemma WrittenOnce(s: State, ops: seq<Operation>, s': State)
    requires Written(s, ops, s') && forall op | op in ops :: op.value.Bytes? && !op.delete
    ensures forall op | op in ops && forall o | o in ops && o.key == op.key :: o == op ::
              op.key in s' && op.value == Bytes(s'[op.key])
  {
    forall op | op in ops && forall o | o in ops && o.key == op.key :: o == op
      ensures op.key in s' && op.value == Bytes(s'[op.key])
    {
      var i := LastOf(ops, op.key);
      assert ops[i] in ops && ops[i] == op;
    }
  }

  lemma {:induction false} LastOf(ops: seq<Operation>, key: ByteString) returns (i: nat)
    requires exists op :: op in ops && op.key == key
    ensures i < |ops| && ops[i].key == key && forall j | i < j < |ops| :: ops[j].key != key
    decreases |ops|
  {
    i := |ops| - 1;
    if ops[i].key != key {
      Snoc(ops);
      i := LastOf(ops[..i], key);
    }
  }

  /** A committed batch of one transaction keeps everything of it but its dropped operations. */
  lemma CommittedTx(lib: Lib, size: nat, tx: Transaction, now: int, r: CommitResult, c: Ledger, d: Disk,
                    es: seq<Effect>, c': Ledger, d': Disk, es': seq<Effect>)
    requires CommitStep(lib, size, Decide(lib, c, [tx], now), r, c, d, es, c', d', es') && r.Committed?
    ensures r.block.txs == [Transaction(tx.id, tx.timestamp, tx.sender, tx.nonce, KeptOps(c.state, tx.ops), tx.payload,
                                        tx.kind)]
  {
    hide KeptOps, FilterTxs, BuildBlock, Loads, FlatOps, ApplyOps, FrameOf, CommitEffects, AppendTo, Fits;
    BuiltLoads(lib, c, [tx], now);
    assert [] + [tx] == [tx];
    FilterSnoc(c.state, [], tx);
    NothingFlat(c.state);
  }

  lemma NothingFlat(s: State)
    ensures ApplyOps(s, FlatOps([])) == s
  {}

  // ----- batches of single operations -----

  predicate SingleOps(txs: seq<Transaction>, ops: seq<Operation>) {
    |txs| == |ops| && forall i | 0 <= i < |txs| :: txs[i].ops == [ops[i]]
  }

  lemma {:induction false} SinglesFlatten(txs: seq<Transaction>, ops: seq<Operation>)
    requires SingleOps(txs, ops)
    ensures FlatOps(txs) == ops
    decreases |txs|
  {
    if |txs| > 0 {
      SinglesFlatten(txs[..|txs| - 1], ops[..|ops| - 1]);
      Snoc(ops);
    }
  }

  lemma NextMultiple(a: nat, n: nat)
    requires n > 0 && a % n == 0
    ensures (a + n) % n == 0
  {
    var d, r := (a + n) / n - a / n, (a + n) % n;
    Product(n, (a + n) / n, a / n);
    assert r == n - n * d;
    if d <= 0 { Product(n, 0, d); AtLeastZero(n, -d); } else if d >= 2 { AtLeastZero(n, d - 2); }
  }

  lemma Product(n: nat, p: int, q: int)
    ensures n * p - n * q == n * (p - q)
  {}

  lemma AtLeastZero(n: nat, k: nat)
    ensures n * k >= 0
  {}

  /** The transactions of a batch, one for each operation that has an effect. */
  ghost predicate FromChunk(txs: seq<Transaction>, chunk: seq<Operation>, sender: ByteString, start: nat,
                            ids: nat -> ByteString, times: nat -> int) {
    forall t | t in txs ::
      && start <= t.nonce < start + |chunk|
      && t == Transaction(ids(t.nonce), times(t.nonce), sender, t.nonce, [chunk[t.nonce - start]], Nil, [])
  }

  lemma {:induction false} KeptSinglesStay(s: State, txs: seq<Transaction>)
    requires FilterTxs(s, txs).Kept? && forall i | 0 <= i < |txs| :: |txs[i].ops| == 1
    ensures forall t | t in FilterTxs(s, txs).txs :: t in txs
    decreases |txs|
  {
    hide FilterTxs, KeptOps, ApplyOps, FlatOps;
    if |txs| == 0 {
      NothingFiltered(s);
    } else {
      var before, tx := txs[..|txs| - 1], txs[|txs| - 1];
      Snoc(txs);
      FilterSnoc(s, before, tx);
      KeptSinglesStay(s, before);
      OneKept(ApplyOps(s, FlatOps(before)), tx.ops);
      var ops := KeptOps(ApplyOps(s, FlatOps(before)), tx.ops);
      assert ops != [] ==> Transaction(tx.id, tx.timestamp, tx.sender, tx.nonce, ops, tx.payload, tx.kind) == tx;
      assert forall t :: t in txs <==> t in before || t == tx;
    }
  }

  lemma NothingFiltered(s: State)
    ensures FilterTxs(s, []) == Kept([], s)
  {}

  lemma OneKept(s: State, ops: seq<Operation>)
    requires |ops| == 1
    ensures KeptOps(s, ops) == [] || KeptOps(s, ops) == ops
  {
    assert ops[..0] == [];
    assert KeptOps(s, ops[..0]) == [];
    assert [ops[0]] == ops;
    assert [] + [ops[0]] == ops;
  }

  lemma SinglesStay(lib: Lib, c: Ledger, txs: seq<Transaction>, chunk: seq<Operation>, sender: ByteString, start: nat,
                    ids: nat -> ByteString, times: nat -> int)
    requires |txs| == |chunk| > 0
    requires forall i | 0 <= i < |txs| ::
               txs[i] == Transaction(ids(start + i), times(start + i), sender, start + i, [chunk[i]], Nil, [])
    ensures Decide(lib, c, txs, times(start)).Built? ==>
              FromChunk(Decide(lib, c, txs, times(start)).block.txs, chunk, sender, start, ids, times)
  {
    hide FilterTxs, BuildBlock, Loads, FlatOps, ApplyOps;
    if Decide(lib, c, txs, times(start)).Built? {
      BuiltLoads(lib, c, txs, times(start));
      KeptSinglesStay(c.state, txs);
      forall t | t in Decide(lib, c, txs, times(start)).block.txs
        ensures start <= t.nonce < start + |chunk|
        ensures t == Transaction(ids(t.nonce), times(t.nonce), sender, t.nonce, [chunk[t.nonce - start]], Nil, [])
      {
        var i :| 0 <= i < |txs| && txs[i] == t;
      }
    }
  }

  // ----- where the blocks of CommitOperations begin -----

  ghost predicate Batch(s: State, ops: seq<Operation>, n: nat, start: nat, b: Block, sender: ByteString,
                        ids: nat -> ByteString, times: nat -> int)
    requires n > 0
  {
    var end := if start + n > |ops| then |ops| else start + n;
    && start % n == 0 && start < end
    && FlatOps(b.txs) == KeptOps(ApplyOps(s, ops[..start]), ops[start..end])
    && FromChunk(b.txs, ops[start..end], sender, start, ids, times)
  }

  ghost predicate Batches(s: State, ops: seq<Operation>, n: nat, done: nat, bs: seq<Block>, starts: seq<nat>,
                          sender: ByteString, ids: nat -> ByteString, times: nat -> int)
    requires n > 0
  {
    && |starts| == |bs|
    && (forall j | 0 <= j < |bs| ::
          Batch(s, ops, n, starts[j], bs[j], sender, ids, times)
          && starts[j] < done && (starts[j] + n <= done || done == |ops|))
    && forall i, j | 0 <= i < j < |bs| :: starts[i] < starts[j]
  }

  lemma NoBatches(s: State, ops: seq<Operation>, n: nat, sender: ByteString, ids: nat -> ByteString,
                  times: nat -> int)
    requires n > 0
    ensures Batches(s, ops, n, 0, [], [], sender, ids, times)
  {}

  lemma LaterBatches(s: State, ops: seq<Operation>, n: nat, start: nat, end: nat, bs: seq<Block>, starts: seq<nat>,
                     sender: ByteString, ids: nat -> ByteString, times: nat -> int)
    requires n > 0 && Batches(s, ops, n, start, bs, starts, sender, ids, times) && start < |ops|
    requires end == if start + n > |ops| then |ops| else start + n
    ensures Batches(s, ops, n, end, bs, starts, sender, ids, times)
  {
    hide Batch;
  }

  lemma OneMoreBatch(s: State, ops: seq<Operation>, n: nat, start: nat, end: nat, bs: seq<Block>, starts: seq<nat>,
                     b: Block, sender: ByteString, ids: nat -> ByteString, times: nat -> int)
    requires n > 0 && Batches(s, ops, n, start, bs, starts, sender, ids, times) && start < |ops| && start % n == 0
    requires end == if start + n > |ops| then |ops| else start + n
    requires TakesChunk(ApplyOps(s, ops[..start]), ops[start..end], b)
    requires FromChunk(b.txs, ops[start..end], sender, start, ids, times)
    ensures Batches(s, ops, n, end, bs + [b], starts + [start], sender, ids, times)
  {
    assert Batch(s, ops, n, start, b, sender, ids, times);
    hide Batch;
  }

  lemma BatchesAre(s: State, ops: seq<Operation>, n: nat, done: nat, bs: seq<Block>, starts: seq<nat>,
                   sender: ByteString, ids: nat -> ByteString, times: nat -> int)
    requires n > 0 && done <= |ops| && Batches(s, ops, n, done, bs, starts, sender, ids, times)
    ensures |starts| == |bs| && forall i, j | 0 <= i < j < |bs| :: starts[i] < starts[j]
    ensures forall j | 0 <= j < |bs| ::
              var end := if starts[j] + n > |ops| then |ops| else starts[j] + n;
              && starts[j] % n == 0 && starts[j] < end && end <= done
              && FlatOps(bs[j].txs) == KeptOps(ApplyOps(s, ops[..starts[j]]), ops[starts[j]..end])
              && forall t | t in bs[j].txs ::
                   && starts[j] <= t.nonce < end
                   && t == Transaction(ids(t.nonce), times(t.nonce), sender, t.nonce, [ops[t.nonce]], Nil, [])
  {
    hide FlatOps, KeptOps, ApplyOps;
    forall j | 0 <= j < |bs|
      ensures Batch(s, ops, n, starts[j], bs[j], sender, ids, times) && starts[j] < done
    {
    }
  }

  /** What committing some operations in batches has done to a chain so far. */
  ghost predicate Absorbed(ops: seq<Operation>, bs: seq<Block>, c0: Ledger, c: Ledger) {
    && c.blocks == c0.blocks + bs
    && c.state == ApplyOps(c0.state, ops)
    && FlatBlocks(bs) == KeptOps(c0.state, ops)
    && c.opCount == c0.opCount + |KeptOps(c0.state, ops)|
    && forall b | b in bs :: FlatOps(b.txs) != []
  }

  lemma NothingAbsorbed(c: Ledger)
    ensures Absorbed([], [], c, c) && !HasEmptyKey([])
  {}

  lemma AbsorbedBlocks(ops: seq<Operation>, bs: seq<Block>, c0: Ledger, c: Ledger)
    requires Absorbed(ops, bs, c0, c)
    ensures c.blocks == c0.blocks + bs && forall b | b in bs :: FlatOps(b.txs) != []
    ensures c.state == ApplyOps(c0.state, ops)
    ensures FlatBlocks(bs) == KeptOps(c0.state, ops)
    ensures c.opCount == c0.opCount + |KeptOps(c0.state, ops)|
  {}

  lemma EmptyKeyIn(ops: seq<Operation>, start: nat, end: nat)
    requires start <= end <= |ops|
    ensures ops[..end] == ops[..start] + ops[start..end]
    ensures HasEmptyKey(ops[..end]) <==> HasEmptyKey(ops[..start]) || HasEmptyKey(ops[start..end])
    ensures HasEmptyKey(ops[..end]) ==> HasEmptyKey(ops)
  {
    assert ops[..end] == ops[..start] + ops[start..end];
  }

  /** The block holds what the filter keeps of the chunk and leads where the whole chunk leads. */
  ghost predicate TakesChunk(s: State, chunk: seq<Operation>, b: Block) {
    && FlatOps(b.txs) == KeptOps(s, chunk) != []
    && ApplyOps(s, FlatOps(b.txs)) == ApplyOps(s, chunk)
  }

  lemma SinglesDecide(lib: Lib, c: Ledger, txs: seq<Transaction>, ops: seq<Operation>, now: int)
    requires SingleOps(txs, ops) && |ops| > 0 && forall i | 0 <= i < |txs| :: txs[i].id != []
    ensures var o := Decide(lib, c, txs, now);
            && (o == MissingKey <==> HasEmptyKey(ops))
            && (o == NoStateChange ==> KeptOps(c.state, ops) == [] && ApplyOps(c.state, ops) == c.state)
            && (o.Built? ==> TakesChunk(c.state, ops, o.block))
            && (o == MissingKey || o == NoStateChange || o.Built?)
  {
    hide Decide, BuildBlock, ApplyOps, KeptOps, FilterTxs, Loads, HasEmptyKey;
    DecisionFollowsFilter(lib, c, txs, now);
    SinglesFlatten(txs, ops);
    if Decide(lib, c, txs, now).Built? { BuiltLoads(lib, c, txs, now); }
    RefusedWhenInvalid(c.state, txs);
    SinglesInvalid(c.state, txs, ops);
    if FilterTxs(c.state, txs).Kept? {
      BatchFilter(c.state, txs);
      FilterFlattens(c.state, txs);
      NothingKept(c.state, ops);
      NoEmptyTx(FilterTxs(c.state, txs).txs);
    }
  }

  lemma DecisionFollowsFilter(lib: Lib, c: Ledger, txs: seq<Transaction>, now: int)
    requires |txs| > 0
    ensures var o, f := Decide(lib, c, txs, now), FilterTxs(c.state, txs);
            && (o == MissingId <==> f == BadId)
            && (o == MissingKey <==> f == BadKey)
            && (o == NoStateChange <==> f.Kept? && f.txs == [])
            && (o.Built? <==> f.Kept? && f.txs != [])
            && o != NoTransactions
  {
    hide FilterTxs, BuildBlock;
  }

  lemma SinglesInvalid(s: State, txs: seq<Transaction>, ops: seq<Operation>)
    requires SingleOps(txs, ops) && forall i | 0 <= i < |txs| :: txs[i].id != []
    ensures (exists tx | tx in txs :: Invalid(tx)) <==> HasEmptyKey(ops)
    ensures FilterTxs(s, txs) != BadId
  {
    if HasEmptyKey(ops) {
      var i :| 0 <= i < |ops| && ops[i].key == [];
      assert ops[i] in txs[i].ops && txs[i] in txs;
    }
    if exists tx | tx in txs :: Invalid(tx) {
      var i :| 0 <= i < |txs| && Invalid(txs[i]);
      assert ops[i] in ops;
    }
    NoBadId(s, txs);
  }

  lemma {:induction false} NoBadId(s: State, txs: seq<Transaction>)
    requires forall i | 0 <= i < |txs| :: txs[i].id != []
    ensures FilterTxs(s, txs) != BadId
    decreases |txs|
  {
    if |txs| > 0 { NoBadId(s, txs[..|txs| - 1]); }
  }

  lemma IdleBatch(before: seq<Operation>, chunk: seq<Operation>, bs: seq<Block>, c0: Ledger, c: Ledger)
    requires Absorbed(before, bs, c0, c)
    requires KeptOps(c.state, chunk) == [] && ApplyOps(c.state, chunk) == c.state
    ensures Absorbed(before + chunk, bs, c0, c)
  {
    ApplySplit(c0.state, before, chunk);
    KeptSplit(c0.state, before, chunk);
    hide ApplyOps, KeptOps;
    assert KeptOps(c0.state, before) + [] == KeptOps(c0.state, before);
  }

  lemma GrowingBatch(before: seq<Operation>, chunk: seq<Operation>, bs: seq<Block>, b: Block,
                     c0: Ledger, c: Ledger, c': Ledger)
    requires Absorbed(before, bs, c0, c) && c' == Applied(c, b)
    requires TakesChunk(c.state, chunk, b)
    ensures Absorbed(before + chunk, bs + [b], c0, c')
  {
    ApplySplit(c0.state, before, chunk);
    KeptSplit(c0.state, before, chunk);
    hide ApplyOps, KeptOps, FlatOps;
    assert (bs + [b])[..|bs|] == bs;
  }

  /** What a recoverable directory opens to, and that the disk then holds it. */
  lemma RecoverableGives(lib: Lib, size: nat, d: Disk, bs: seq<Block>)
    requires lib.Sound() && size <= MAX_RECORD && Recoverable(lib, size, d, bs)
    ensures Recover(lib, d.segs).Some? && CleanLog(lib, Opened(lib, d).0.segs)
    ensures var o := OpenDisk(lib, size, d);
            && o.Opens? && o.ledger.blocks == bs
            && LogBlocks(lib, o.disk.segs) == bs == NormAll(bs)
  {
    RecoverableOpens(lib, size, d, bs);
    RecoverableIsCleaned(lib, size, d, bs);
    OpenedIsNormalised(lib, size, d);
    hide Recoverable, OpenDisk, LoadAll, Normalised, CleanLog, LogBlocks, Recover, Opened, PerformAll;
    NormalisedStay(bs);
  }

  lemma EmptyLoads(lib: Lib)
    ensures LoadAll(lib, []) == Some(EMPTY)
  {}

  lemma LoadedBlocksAre(lib: Lib, bs: seq<Block>)
    requires LoadAll(lib, bs).Some?
    ensures LoadAll(lib, bs).value.blocks == bs
  {
    LoadedLedger(lib, bs);
  }
}
