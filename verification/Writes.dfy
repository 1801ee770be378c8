/** Applying operations to a state, and dropping those that change nothing. */
module Writes {
  import opened ByteStrings
  import opened Merkle
  import opened Model

  function ApplyOp(s: State, op: Operation): State {
    if op.delete then s - {op.key} else s[op.key := Raw(op.value)]
  }

  /** The state after some operations, the last one applied last. */
  function ApplyOps(s: State, ops: seq<Operation>): State
    decreases |ops|
  {
    if |ops| == 0 then s else ApplyOp(ApplyOps(s, ops[..|ops| - 1]), ops[|ops| - 1])
  }

  /** The guard of Commit: deleting a present key, or writing a value the key does not have yet. */
  predicate Effective(s: State, op: Operation) {
    if op.delete then op.key in s else !(op.key in s && s[op.key] == Raw(op.value))
  }

  /** The operations that are effective at the point where they come. */
  function KeptOps(s: State, ops: seq<Operation>): seq<Operation>
    decreases |ops|
  {
    if |ops| == 0 then []
    else
      var before := ops[..|ops| - 1];
      var last := ops[|ops| - 1];
      KeptOps(s, before) + if Effective(ApplyOps(s, before), last) then [last] else []
  }

  function FlatOps(txs: seq<Transaction>): seq<Operation>
    decreases |txs|
  {
    if |txs| == 0 then [] else FlatOps(txs[..|txs| - 1]) + txs[|txs| - 1].ops
  }

  datatype Filtered = BadId | BadKey | Kept(txs: seq<Transaction>, state: State)

  predicate HasEmptyKey(ops: seq<Operation>) { exists op | op in ops :: op.key == [] }

  /** The validation and no-op filter of Commit, transaction by transaction. */
  function FilterTxs(s: State, txs: seq<Transaction>): Filtered
    decreases |txs|
  {
    if |txs| == 0 then Kept([], s)
    else
      var tx := txs[|txs| - 1];
      match FilterTxs(s, txs[..|txs| - 1])
      case BadId => BadId
      case BadKey => BadKey
      case Kept(done, now) =>
        if tx.id == [] then BadId
        else if HasEmptyKey(tx.ops) then BadKey
        else
          var ops := KeptOps(now, tx.ops);
          Kept(if ops == [] then done else done + [tx.(ops := ops)], ApplyOps(now, tx.ops))
  }

  // ----- operations -----

  /** What the state holds after some operations: for each key what the last operation on it said, byte for byte. */
  lemma {:induction false} LastWriteWins(s: State, ops: seq<Operation>, i: nat)
    requires i < |ops| && forall j | i < j < |ops| :: ops[j].key != ops[i].key
    ensures ops[i].key in ApplyOps(s, ops) <==> !ops[i].delete
    ensures !ops[i].delete ==>
              ApplyOps(s, ops)[ops[i].key] == match ops[i].value case Nil => [] case Bytes(x) => x
    decreases |ops|
  {
    if i < |ops| - 1 {
      var before, last := ops[..|ops| - 1], ops[|ops| - 1];
      assert before[i] == ops[i] && last.key != ops[i].key;
      assert forall j | i < j < |before| :: before[j] == ops[j];
      LastWriteWins(s, before, i);
    }
  }

  /** A key without an operation stays as it was. */
  lemma {:induction false} OthersStay(s: State, ops: seq<Operation>, key: ByteString)
    requires forall j | 0 <= j < |ops| :: ops[j].key != key
    ensures key in ApplyOps(s, ops) <==> key in s
    ensures key in s ==> ApplyOps(s, ops)[key] == s[key]
    decreases |ops|
  {
    if |ops| > 0 {
      var before, last := ops[..|ops| - 1], ops[|ops| - 1];
      assert forall j | 0 <= j < |before| :: before[j] == ops[j];
      OthersStay(s, before, key);
      assert last.key != key;
    }
  }

  /** One more operation is dropped exactly when it deletes a key that is absent, or writes the bytes that the key
      already holds; otherwise it is kept behind the others. */
  lemma KeptSnoc(s: State, ops: seq<Operation>, op: Operation)
    ensures var now := ApplyOps(s, ops);
            KeptOps(s, ops + [op]) ==
            if (if op.delete then op.key !in now
                else op.key in now && now[op.key] == match op.value case Nil => [] case Bytes(x) => x)
            then KeptOps(s, ops) else KeptOps(s, ops) + [op]
    ensures KeptOps(s, []) == []
  {
    assert (ops + [op])[..|ops|] == ops;
    assert KeptOps(s, ops) + [] == KeptOps(s, ops);
  }

  /** The guard is right: an operation is effective exactly when it changes the state. */
  lemma EffectiveMeansChange(s: State, op: Operation)
    ensures Effective(s, op) <==> ApplyOp(s, op) != s
  {
    if op.delete {
      if op.key in s { assert op.key !in ApplyOp(s, op); } else { assert ApplyOp(s, op) == s; }
    } else {
      assert ApplyOp(s, op)[op.key] == Raw(op.value);
      if !Effective(s, op) { assert ApplyOp(s, op) == s; }
    }
  }

  lemma {:induction false} ApplySplit(s: State, a: seq<Operation>, b: seq<Operation>)
    ensures ApplyOps(s, a + b) == ApplyOps(ApplyOps(s, a), b)
    decreases |b|
  {
    if |b| == 0 {
      assert a + b == a;
    } else {
      assert (a + b)[..|a + b| - 1] == a + b[..|b| - 1];
      ApplySplit(s, a, b[..|b| - 1]);
    }
  }

  lemma {:induction false} KeptSplit(s: State, a: seq<Operation>, b: seq<Operation>)
    ensures KeptOps(s, a + b) == KeptOps(s, a) + KeptOps(ApplyOps(s, a), b)
    decreases |b|
  {
    if |b| == 0 {
      assert a + b == a;
    } else {
      assert (a + b)[..|a + b| - 1] == a + b[..|b| - 1];
      KeptSplit(s, a, b[..|b| - 1]);
      ApplySplit(s, a, b[..|b| - 1]);
    }
  }

  /** In order and with nothing new. */
  predicate Subsequence(xs: seq<Operation>, ys: seq<Operation>)
    decreases |ys|
  {
    if |ys| == 0 then xs == []
    else
      || Subsequence(xs, ys[..|ys| - 1])
      || (xs != [] && xs[|xs| - 1] == ys[|ys| - 1] && Subsequence(xs[..|xs| - 1], ys[..|ys| - 1]))
  }

  /** Each operation changes the state where it is applied. */
  predicate AllEffective(s: State, ops: seq<Operation>)
    decreases |ops|
  {
    |ops| == 0 || (AllEffective(s, ops[..|ops| - 1]) && ApplyOps(s, ops) != ApplyOps(s, ops[..|ops| - 1]))
  }

  /** No operation, in sequence, ever moves the state. */
  predicate StandsStill(s: State, ops: seq<Operation>)
    decreases |ops|
  {
    |ops| == 0 || (StandsStill(s, ops[..|ops| - 1]) && ApplyOps(s, ops) == s)
  }

  /** No operation that is effective where it comes writes an empty slice that is not nil. */
  predicate EffectsKept(s: State, ops: seq<Operation>) {
    forall i | 0 <= i < |ops| && Effective(ApplyOps(s, ops[..i]), ops[i]) :: NilWhenEmpty(ops[i].value)
  }

  lemma {:induction false} EffectsKeptExactly(s: State, ops: seq<Operation>)
    ensures EffectsKept(s, ops) <==> OpsKept(KeptOps(s, ops))
    decreases |ops|
  {
    hide Effective, ApplyOps, NilWhenEmpty;
    if |ops| != 0 {
      var before := ops[..|ops| - 1];
      EffectsKeptExactly(s, before);
      EffectsKeptSnoc(s, ops);
      OpsKeptMore(KeptOps(s, before), ops[|ops| - 1]);
      assert KeptOps(s, before) + [] == KeptOps(s, before);
    }
  }

  lemma EffectsKeptSnoc(s: State, ops: seq<Operation>)
    requires |ops| > 0
    ensures var n := |ops| - 1;
            EffectsKept(s, ops) <==>
            EffectsKept(s, ops[..n]) && (Effective(ApplyOps(s, ops[..n]), ops[n]) ==> NilWhenEmpty(ops[n].value))
  {
    hide Effective, ApplyOps, NilWhenEmpty;
    var before := ops[..|ops| - 1];
    assert forall i | 0 <= i < |before| :: before[..i] == ops[..i] && before[i] == ops[i];
    if EffectsKept(s, ops) {
      forall i | 0 <= i < |before| && Effective(ApplyOps(s, before[..i]), before[i])
        ensures NilWhenEmpty(before[i].value)
      {
        assert before[..i] == ops[..i];
      }
    }
  }

  lemma OpsKeptMore(ops: seq<Operation>, op: Operation)
    ensures OpsKept(ops + [op]) <==> OpsKept(ops) && NilWhenEmpty(op.value)
  {
    hide NilWhenEmpty;
    if OpsKept(ops + [op]) {
      assert op in ops + [op];
      forall x | x in ops ensures NilWhenEmpty(x.value) { assert x in ops + [op]; }
    }
  }

  /** The filter loses nothing and keeps nothing idle: the kept operations are some of the given ones in
      their order, lead to the same state, and each changes the state where it is applied. */
  lemma {:induction false} FilterIsSound(s: State, ops: seq<Operation>)
    ensures ApplyOps(s, KeptOps(s, ops)) == ApplyOps(s, ops)
    ensures AllEffective(s, KeptOps(s, ops))
    ensures Subsequence(KeptOps(s, ops), ops)
    decreases |ops|
  {
    if |ops| != 0 {
      var before, last := ops[..|ops| - 1], ops[|ops| - 1];
      FilterIsSound(s, before);
      EffectiveMeansChange(ApplyOps(s, before), last);
      var kept := KeptOps(s, ops);
      if Effective(ApplyOps(s, before), last) {
        assert kept[..|kept| - 1] == KeptOps(s, before);
      } else {
        assert kept == KeptOps(s, before);
      }
    }
  }

  /** A list of effective operations passes the filter whole. */
  lemma {:induction false} EffectiveOpsStay(s: State, ops: seq<Operation>)
    requires AllEffective(s, ops)
    ensures KeptOps(s, ops) == ops
    decreases |ops|
  {
    if |ops| != 0 {
      var before, last := ops[..|ops| - 1], ops[|ops| - 1];
      EffectiveOpsStay(s, before);
      EffectiveMeansChange(ApplyOps(s, before), last);
      assert ops == before + [last];
    }
  }

  lemma FilterIsIdempotent(s: State, ops: seq<Operation>)
    ensures KeptOps(s, KeptOps(s, ops)) == KeptOps(s, ops)
  {
    FilterIsSound(s, ops);
    EffectiveOpsStay(s, KeptOps(s, ops));
  }

  /** Nothing is kept exactly when the state stands still all along. */
  lemma {:induction false} NothingKept(s: State, ops: seq<Operation>)
    ensures KeptOps(s, ops) == [] <==> StandsStill(s, ops)
    ensures StandsStill(s, ops) ==> ApplyOps(s, ops) == s
    decreases |ops|
  {
    if |ops| != 0 {
      var before, last := ops[..|ops| - 1], ops[|ops| - 1];
      NothingKept(s, before);
      EffectiveMeansChange(ApplyOps(s, before), last);
    }
  }

  // ----- transactions -----

  lemma {:induction false} FlatSplit(a: seq<Transaction>, b: seq<Transaction>)
    ensures FlatOps(a + b) == FlatOps(a) + FlatOps(b)
    decreases |b|
  {
    if |b| == 0 {
      assert a + b == a;
    } else {
      assert (a + b)[..|a + b| - 1] == a + b[..|b| - 1];
      FlatSplit(a, b[..|b| - 1]);
    }
  }

  lemma FlatSnoc(txs: seq<Transaction>, tx: Transaction)
    ensures FlatOps(txs + [tx]) == FlatOps(txs) + tx.ops
  {
    assert (txs + [tx])[..|txs|] == txs;
  }

  predicate Invalid(tx: Transaction) { tx.id == [] || HasEmptyKey(tx.ops) }

  /** A batch is refused exactly when some transaction has no id or an empty key. */
  lemma {:induction false} RefusedWhenInvalid(s: State, txs: seq<Transaction>)
    ensures FilterTxs(s, txs).Kept? <==> forall tx | tx in txs :: !Invalid(tx)
    decreases |txs|
  {
    if |txs| != 0 {
      var before, tx := txs[..|txs| - 1], txs[|txs| - 1];
      RefusedWhenInvalid(s, before);
      assert txs == before + [tx];
      assert tx in txs;
      assert forall t | t in before :: t in txs;
    }
  }

  /** Which error: that of the first invalid transaction, a missing id before an empty key. */
  lemma {:induction false} FirstErrorCounts(s: State, txs: seq<Transaction>, i: nat)
    requires i < |txs| && forall j | 0 <= j < i :: txs[j].id != [] && forall op | op in txs[j].ops :: op.key != []
    requires txs[i].id == [] || exists op :: op in txs[i].ops && op.key == []
    ensures FilterTxs(s, txs) == if txs[i].id == [] then BadId else BadKey
  {
    var upTo, before := txs[..i + 1], txs[..i];
    assert upTo[..i] == before && upTo[i] == txs[i];
    RefusedWhenInvalid(s, before);
    assert FilterTxs(s, upTo) == if txs[i].id == [] then BadId else BadKey;
    ErrorsStick(s, txs, i + 1);
  }

  lemma {:induction false} ErrorsStick(s: State, txs: seq<Transaction>, i: nat)
    requires i <= |txs| && !FilterTxs(s, txs[..i]).Kept?
    ensures FilterTxs(s, txs) == FilterTxs(s, txs[..i])
    decreases |txs|
  {
    if i == |txs| {
      assert txs[..i] == txs;
    } else {
      assert txs[..|txs| - 1][..i] == txs[..i];
      ErrorsStick(s, txs[..|txs| - 1], i);
    }
  }

  /** Over a whole batch, transaction boundaries do not matter to what is kept or to the final state, and
      no kept transaction is empty. */
  lemma {:induction false} FilterFlattens(s: State, txs: seq<Transaction>)
    requires FilterTxs(s, txs).Kept?
    ensures FlatOps(FilterTxs(s, txs).txs) == KeptOps(s, FlatOps(txs))
    ensures FilterTxs(s, txs).state == ApplyOps(s, FlatOps(txs))
    ensures forall tx | tx in FilterTxs(s, txs).txs :: tx.ops != [] && !Invalid(tx)
    decreases |txs|
  {
    if |txs| != 0 {
      var before, tx := txs[..|txs| - 1], txs[|txs| - 1];
      FilterFlattens(s, before);
      ApplySplit(s, FlatOps(before), tx.ops);
      KeptSplit(s, FlatOps(before), tx.ops);
      var mid := FilterTxs(s, before);
      var ops := KeptOps(mid.state, tx.ops);
      FlatSnoc(mid.txs, tx.(ops := ops));
      FilterIsSound(mid.state, tx.ops);
      SubsequenceIn(ops, tx.ops);
    }
  }

  /** What is kept of a batch, transaction by transaction: each in its place with everything but its dropped
      operations, and none of which nothing is left. */
  lemma FilterSnoc(s: State, txs: seq<Transaction>, tx: Transaction)
    requires FilterTxs(s, txs + [tx]).Kept?
    ensures FilterTxs(s, txs).Kept? && FilterTxs(s, []) == Kept([], s)
    ensures var ops := KeptOps(ApplyOps(s, FlatOps(txs)), tx.ops);
            FilterTxs(s, txs + [tx]).txs ==
            FilterTxs(s, txs).txs +
            if ops == [] then []
            else [Transaction(tx.id, tx.timestamp, tx.sender, tx.nonce, ops, tx.payload, tx.kind)]
  {
    assert (txs + [tx])[..|txs|] == txs;
    assert FilterTxs(s, txs).Kept?;
    FilterFlattens(s, txs);
    assert FilterTxs(s, txs).txs + [] == FilterTxs(s, txs).txs;
  }

  lemma {:induction false} SubsequenceIn(xs: seq<Operation>, ys: seq<Operation>)
    requires Subsequence(xs, ys)
    ensures forall x | x in xs :: x in ys
    decreases |ys|
  {
    if |ys| != 0 {
      if Subsequence(xs, ys[..|ys| - 1]) {
        SubsequenceIn(xs, ys[..|ys| - 1]);
      } else {
        SubsequenceIn(xs[..|xs| - 1], ys[..|ys| - 1]);
        assert xs == xs[..|xs| - 1] + [xs[|xs| - 1]];
      }
    }
  }

  /** No-op suppression over a batch: the kept transactions lead to the state of all of them, and the batch
      counts as unchanged exactly when no operation in sequence ever moves the state. */
  lemma BatchFilter(s: State, txs: seq<Transaction>)
    requires FilterTxs(s, txs).Kept?
    ensures var kept := FilterTxs(s, txs).txs;
            && ApplyOps(s, FlatOps(kept)) == ApplyOps(s, FlatOps(txs)) == FilterTxs(s, txs).state
            && AllEffective(s, FlatOps(kept))
            && KeptOps(s, FlatOps(kept)) == FlatOps(kept)
            && (kept == [] <==> StandsStill(s, FlatOps(txs)))
  {
    FilterFlattens(s, txs);
    FilterIsSound(s, FlatOps(txs));
    FilterIsIdempotent(s, FlatOps(txs));
    NothingKept(s, FlatOps(txs));
    NoEmptyTx(FilterTxs(s, txs).txs);
  }

  lemma NoEmptyTx(txs: seq<Transaction>)
    requires forall tx | tx in txs :: tx.ops != []
    ensures FlatOps(txs) == [] <==> txs == []
  {
    if txs != [] {
      assert txs[|txs| - 1] in txs;
    }
  }

  lemma {:induction false} FlatKept(txs: seq<Transaction>)
    ensures OpsKept(FlatOps(txs)) <==> forall tx | tx in txs :: OpsKept(tx.ops)
    decreases |txs|
  {
    if |txs| != 0 {
      var before, last := txs[..|txs| - 1], txs[|txs| - 1];
      FlatKept(before);
      OpsKeptSplit(FlatOps(before), last.ops);
      hide OpsKept;
      assert txs == before + [last];
      assert forall tx :: tx in txs <==> tx in before || tx == last;
    }
  }

  lemma OpsKeptSplit(a: seq<Operation>, b: seq<Operation>)
    ensures OpsKept(a + b) <==> OpsKept(a) && OpsKept(b)
  {
    hide NilWhenEmpty;
    if OpsKept(a + b) {
      forall x | x in a ensures NilWhenEmpty(x.value) { assert x in a + b; }
      forall x | x in b ensures NilWhenEmpty(x.value) { assert x in a + b; }
    }
  }
}
