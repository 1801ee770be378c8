/** The stored entities, and the imported libraries as functions with only the facts the engine relies on. */
module Model {
  import opened ByteStrings
  import opened Options
  import opened Merkle

  /** A Go byte slice: nil and empty are different values, and JSON prints them differently. */
  datatype Value = Nil | Bytes(bytes: ByteString)

  /** append([]byte{}, v...): what the state stores. */
  function Raw(v: Value): ByteString { if v.Nil? then [] else v.bytes }

  datatype Operation = Operation(key: ByteString, value: Value, delete: bool)

  datatype Transaction = Transaction(id: ByteString, timestamp: int, sender: ByteString, nonce: nat,
                                     ops: seq<Operation>, payload: Value, kind: ByteString)

  datatype Header = Header(height: nat, timestamp: int, prevHash: ByteString, txRoot: ByteString,
                           stateRoot: ByteString, contractRoot: ByteString, accountRoot: ByteString,
                           contractCodeRoot: ByteString, contractStorageRoot: ByteString, logRoot: ByteString,
                           zkRoot: ByteString, receiptRoot: ByteString, recordHash: ByteString, schema: nat,
                           compression: ByteString)

  datatype Block = Block(header: Header, txs: seq<Transaction>)

  // ----- what the disk encoding forgets -----

  function NormValue(v: Value): Value { if v == Bytes([]) then Nil else v }

  function NormOps(ops: seq<Operation>): (r: seq<Operation>)
    ensures |r| == |ops|
  {
    seq<Operation>(|ops|, i requires 0 <= i < |ops| => ops[i].(value := NormValue(ops[i].value)))
  }

  function NormTx(tx: Transaction): Transaction {
    tx.(ops := NormOps(tx.ops), payload := NormValue(tx.payload))
  }

  /** A block after a trip through gob: empty slices come back nil. */
  function Norm(b: Block): Block {
    b.(txs := seq<Transaction>(|b.txs|, i requires 0 <= i < |b.txs| => NormTx(b.txs[i])))
  }

  predicate NilWhenEmpty(v: Value) { v != Bytes([]) }

  predicate OpsKept(ops: seq<Operation>) { forall op | op in ops :: NilWhenEmpty(op.value) }

  /** No value of the block is an empty slice that is not nil; payloads may be. */
  predicate ValuesKept(b: Block) { forall tx | tx in b.txs :: OpsKept(tx.ops) }

  /** No value or payload of the block is an empty slice that is not nil. */
  predicate Normalised(b: Block) { forall tx | tx in b.txs :: NilWhenEmpty(tx.payload) && OpsKept(tx.ops) }

  lemma OpsKeptExactly(ops: seq<Operation>)
    ensures NormOps(ops) == ops <==> OpsKept(ops)
    ensures NormOps(NormOps(ops)) == NormOps(ops)
  {
    if NormOps(ops) == ops {
      forall op | op in ops ensures NilWhenEmpty(op.value) {
        var j :| 0 <= j < |ops| && ops[j] == op;
        assert NormOps(ops)[j] == op;
      }
    }
  }

  /** The disk keeps a block exactly when nothing in it is empty without being nil. */
  lemma NormKeepsExactlyNormalised(b: Block)
    ensures Norm(b) == b <==> Normalised(b)
    ensures Normalised(Norm(b))
  {
    forall tx | tx in b.txs
      ensures NormTx(tx) == tx <==> NilWhenEmpty(tx.payload) && OpsKept(tx.ops)
      ensures OpsKept(NormOps(tx.ops))
    {
      OpsKeptExactly(tx.ops);
      OpsKeptExactly(NormOps(tx.ops));
    }
    hide OpsKept, NormOps, NilWhenEmpty;
    if Norm(b) == b {
      forall tx | tx in b.txs ensures NormTx(tx) == tx {
        var i :| 0 <= i < |b.txs| && b.txs[i] == tx;
        assert Norm(b).txs[i] == tx;
      }
    }
    assert (forall tx | tx in b.txs :: NormTx(tx) == tx) ==> Norm(b).txs == b.txs;
  }

  /** Nothing else is lost: header, transactions and operations stay, and every byte slice keeps its bytes. */
  lemma NormKeepsBytes(b: Block)
    ensures Norm(b).header == b.header && |Norm(b).txs| == |b.txs|
    ensures forall i | 0 <= i < |b.txs| ::
              var t, u := b.txs[i], Norm(b).txs[i];
              && u.(ops := t.ops, payload := t.payload) == t && |u.ops| == |t.ops|
              && (match t.payload case Nil => [] case Bytes(x) => x)
                 == (match u.payload case Nil => [] case Bytes(x) => x)
    ensures forall i, j | 0 <= i < |b.txs| && 0 <= j < |b.txs[i].ops| ::
              var o, q := b.txs[i].ops[j], NormOps(b.txs[i].ops)[j];
              && Norm(b).txs[i].ops == NormOps(b.txs[i].ops)
              && q.key == o.key && q.delete == o.delete
              && (match o.value case Nil => [] case Bytes(x) => x) == (match q.value case Nil => [] case Bytes(x) => x)
  {}

  // ----- what the JSON text forgets -----

  /** An empty payload is left out of the JSON text of its transaction, nil or not. */
  function ShownTx(tx: Transaction): Transaction { tx.(payload := NormValue(tx.payload)) }

  function ShownTxs(txs: seq<Transaction>): (r: seq<Transaction>)
    ensures |r| == |txs|
  {
    seq<Transaction>(|txs|, i requires 0 <= i < |txs| => ShownTx(txs[i]))
  }

  /** A block as its JSON text shows it. */
  function Shown(b: Block): Block { b.(txs := ShownTxs(b.txs)) }

  /** Disk encoding and JSON text forget the same about a block exactly when no value of it is an empty slice that
      is not nil. */
  lemma NormIsShownExactly(b: Block)
    ensures Norm(b) == Shown(b) <==> ValuesKept(b)
    ensures Shown(Norm(b)) == Norm(b) && Shown(Shown(b)) == Shown(b)
  {
    forall tx | tx in b.txs ensures NormTx(tx) == ShownTx(tx) <==> OpsKept(tx.ops) {
      OpsKeptExactly(tx.ops);
    }
    hide OpsKept, NormOps, NilWhenEmpty;
    if Norm(b) == Shown(b) {
      forall tx | tx in b.txs ensures NormTx(tx) == ShownTx(tx) {
        var i :| 0 <= i < |b.txs| && b.txs[i] == tx;
        assert Norm(b).txs[i] == Shown(b).txs[i];
      }
    }
    assert (forall tx | tx in b.txs :: NormTx(tx) == ShownTx(tx)) ==> Norm(b).txs == Shown(b).txs;
    assert Shown(Norm(b)).txs == Norm(b).txs && Shown(Shown(b)).txs == Shown(b).txs;
  }

  // ----- imported libraries -----

  type word = n: nat | n < TWO_TO_THE_32

  datatype Lib = Lib(hash: Hasher,
                     crc: ByteString -> word,
                     deflate: ByteString -> ByteString,
                     inflate: ByteString -> Option<ByteString>,
                     encode: Block -> ByteString,
                     decode: ByteString -> Option<Block>,
                     jsonBlock: Block -> ByteString,
                     jsonTx: Transaction -> ByteString,
                     validJson: ByteString -> bool,
                     toLower: ByteString -> ByteString)
  {
    /** zlib gives back what it packed; gob leaves empty slices out and gives them back nil; JSON leaves empty
        payloads out. */
    ghost predicate Sound() {
      && (forall p :: deflate(p) != [] && inflate(deflate(p)) == Some(p))
      && (forall b :: encode(b) != [] && decode(encode(b)) == Some(Norm(b)))
      && (forall b {:trigger encode(Norm(b))} :: encode(Norm(b)) == encode(b))
      && (forall p :: decode(p).Some? ==> Normalised(decode(p).value))
      && (forall b {:trigger jsonBlock(Shown(b))} :: jsonBlock(Shown(b)) == jsonBlock(b))
      && (forall tx {:trigger jsonTx(ShownTx(tx))} :: jsonTx(ShownTx(tx)) == jsonTx(tx))
    }
  }
}
