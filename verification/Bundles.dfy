/** Execution bundles: the operations a bundle stands for, whatever order its maps are ranged over in. */
module Bundles {
  import opened ByteStrings
  import opened Lists
  import opened Sorting
  import opened Model
  import opened Chain

  datatype Bundle = Bundle(blockId: ByteString, sender: ByteString, nonce: nat,
                           accounts: map<ByteString, ByteString>, code: map<ByteString, ByteString>,
                           storage: map<ByteString, ByteString>, receipts: map<ByteString, ByteString>,
                           logs: map<ByteString, ByteString>, extra: map<ByteString, ByteString>)

  /** The maps of a bundle in the order CommitExecution goes through them. */
  datatype Part = Accounts | Code | Storage | Receipts | Logs | Extra

  const PARTS := [Accounts, Code, Storage, Receipts, Logs, Extra]

  function Members(x: Bundle, p: Part): map<ByteString, ByteString> {
    match p
    case Accounts => x.accounts
    case Code => x.code
    case Storage => x.storage
    case Receipts => x.receipts
    case Logs => x.logs
    case Extra => x.extra
  }

  function KeyOf(lib: Lib, p: Part, k: ByteString): ByteString {
    match p
    case Accounts => ACCOUNT + lib.toLower(k)
    case Code => CONTRACT_CODE + lib.toLower(k)
    case Storage => CONTRACT_STORAGE + k
    case Receipts => RECEIPT + k
    case Logs => LOG + k
    case Extra => k
  }

  predicate MustBeJson(p: Part) { p.Accounts? || p.Receipts? || p.Logs? }

  predicate PartIsValid(lib: Lib, x: Bundle, p: Part) {
    MustBeJson(p) ==> forall k | k in Members(x, p) :: lib.validJson(Members(x, p)[k])
  }

  predicate BundleIsValid(lib: Lib, x: Bundle) {
    forall i | 0 <= i < |PARTS| :: PartIsValid(lib, x, PARTS[i])
  }

  predicate Within(x: Bundle, p: Part, order: seq<ByteString>) {
    forall i | 0 <= i < |order| :: order[i] in Members(x, p)
  }

  lemma EnumerationIsWithin(x: Bundle, p: Part, order: seq<ByteString>)
    requires multiset(order) == multiset(Members(x, p).Keys)
    ensures Within(x, p, order)
  {
    assert forall i | 0 <= i < |order| :: order[i] in multiset(order);
  }

  /** The operations of one part, along some order of its keys. */
  function OpsAlong(lib: Lib, x: Bundle, p: Part, order: seq<ByteString>): (r: seq<Operation>)
    requires Within(x, p, order)
    ensures |r| == |order|
  {
    seq<Operation>(|order|, i requires 0 <= i < |order| =>
      Operation(KeyOf(lib, p, order[i]), Bytes(Members(x, p)[order[i]]), false))
  }

  ghost predicate Enumerates(x: Bundle, p: Part, order: seq<ByteString>) {
    multiset(order) == multiset(Members(x, p).Keys)
  }

  ghost function SomeOps(lib: Lib, x: Bundle, p: Part): seq<Operation> {
    var order := SomeOrder(Members(x, p).Keys);
    EnumerationIsWithin(x, p, order);
    OpsAlong(lib, x, p, order)
  }

  /** The operations of the first n parts in one fixed order. */
  ghost function SomeBundleOps(lib: Lib, x: Bundle, n: nat): seq<Operation>
    requires n <= |PARTS|
  {
    if n == 0 then [] else SomeBundleOps(lib, x, n - 1) + SomeOps(lib, x, PARTS[n - 1])
  }

  predicate KeyAtMost(a: Operation, b: Operation) { AtMost(a.key, b.key) }

  /** The sorted operation list of a bundle. */
  ghost function BundleOps(lib: Lib, x: Bundle): seq<Operation> {
    Sort(SomeBundleOps(lib, x, |PARTS|), KeyAtMost)
  }

  ghost predicate KeysDistinct(lib: Lib, x: Bundle) {
    forall p, k, q, j | k in Members(x, p) && j in Members(x, q) && KeyOf(lib, p, k) == KeyOf(lib, q, j) ::
      p == q && k == j
  }

  // ----- order does not matter -----

  lemma {:induction false} OrderKeepsMultiset(lib: Lib, x: Bundle, p: Part, a: seq<ByteString>, b: seq<ByteString>)
    requires multiset(a) == multiset(b) && Within(x, p, a) && Within(x, p, b)
    ensures multiset(OpsAlong(lib, x, p, a)) == multiset(OpsAlong(lib, x, p, b))
    decreases |a|
  {
    hide Within, OpsAlong, KeyOf, Members;
    if |a| == 0 {
      assert |multiset(b)| == 0;
    } else {
      assert a[0] in multiset(b);
      var j :| 0 <= j < |b| && b[j] == a[0];
      var ta, tb := a[..0] + a[1..], b[..j] + b[j + 1..];
      assert multiset(ta) == multiset(tb) by {
        RemoveAt(a, 0);
        RemoveAt(b, j);
      }
      SplitOps(lib, x, p, a, 0);
      SplitOps(lib, x, p, b, j);
      OrderKeepsMultiset(lib, x, p, ta, tb);
      PutBack(multiset(OpsAlong(lib, x, p, a)), multiset(OpsAlong(lib, x, p, b)),
              Operation(KeyOf(lib, p, b[j]), Bytes(Members(x, p)[b[j]]), false));
    }
  }

  lemma SplitOps(lib: Lib, x: Bundle, p: Part, b: seq<ByteString>, j: nat)
    requires j < |b| && Within(x, p, b)
    ensures Within(x, p, b[..j] + b[j + 1..]) && b[j] in Members(x, p)
    ensures var op := Operation(KeyOf(lib, p, b[j]), Bytes(Members(x, p)[b[j]]), false);
            && multiset(OpsAlong(lib, x, p, b[..j] + b[j + 1..])) == multiset(OpsAlong(lib, x, p, b)) - multiset{op}
            && op in multiset(OpsAlong(lib, x, p, b))
  {
    hide KeyOf, Members;
    var f := OpsAlong(lib, x, p, b);
    RemoveAt(f, j);
    assert OpsAlong(lib, x, p, b[..j] + b[j + 1..]) == f[..j] + f[j + 1..];
  }

  lemma SameOpsInAnyOrder(lib: Lib, x: Bundle, p: Part, order: seq<ByteString>)
    requires Enumerates(x, p, order)
    ensures Within(x, p, order)
    ensures multiset(OpsAlong(lib, x, p, order)) == multiset(SomeOps(lib, x, p))
  {
    var other := SomeOrder(Members(x, p).Keys);
    EnumerationIsWithin(x, p, order);
    EnumerationIsWithin(x, p, other);
    OrderKeepsMultiset(lib, x, p, order, other);
  }

  lemma {:induction false} OpsHaveOrigins(lib: Lib, x: Bundle, n: nat, op: Operation)
    requires n <= |PARTS| && op in SomeBundleOps(lib, x, n)
    ensures exists p, k :: k in Members(x, p) && op == Operation(KeyOf(lib, p, k), Bytes(Members(x, p)[k]), false)
  {
    hide KeyOf, Members;
    if n > 0 {
      if op in SomeBundleOps(lib, x, n - 1) {
        OpsHaveOrigins(lib, x, n - 1, op);
      } else {
        var p := PARTS[n - 1];
        var order := SomeOrder(Members(x, p).Keys);
        var i :| 0 <= i < |SomeOps(lib, x, p)| && SomeOps(lib, x, p)[i] == op;
        assert order[i] in multiset(order);
      }
    }
  }

  lemma PartOpsAre(lib: Lib, x: Bundle, p: Part, op: Operation)
    ensures op in SomeOps(lib, x, p) <==>
            exists k :: k in Members(x, p) && op == Operation(KeyOf(lib, p, k), Bytes(Members(x, p)[k]), false)
    ensures |SomeOps(lib, x, p)| == |Members(x, p)|
  {
    hide KeyOf, Members;
    var m, order := Members(x, p), SomeOrder(Members(x, p).Keys);
    EnumerationIsWithin(x, p, order);
    assert |order| == |multiset(order)| == |m.Keys| == |m|;
    if k :| k in m && op == Operation(KeyOf(lib, p, k), Bytes(m[k]), false) {
      assert k in multiset(order);
      var i :| 0 <= i < |order| && order[i] == k;
      assert SomeOps(lib, x, p)[i] == op;
    }
  }

  /** Which operations a bundle stands for, map by map. */
  lemma BundleOpsAre(lib: Lib, x: Bundle, op: Operation)
    ensures op in SomeBundleOps(lib, x, |PARTS|) <==>
            || (exists k :: k in x.accounts &&
                            op == Operation(Ascii("account/") + lib.toLower(k), Bytes(x.accounts[k]), false))
            || (exists k :: k in x.code &&
                            op == Operation(Ascii("contract/code/") + lib.toLower(k), Bytes(x.code[k]), false))
            || (exists k :: k in x.storage &&
                            op == Operation(Ascii("contract-storage/") + k, Bytes(x.storage[k]), false))
            || (exists k :: k in x.receipts && op == Operation(Ascii("receipt/") + k, Bytes(x.receipts[k]), false))
            || (exists k :: k in x.logs && op == Operation(Ascii("log/") + k, Bytes(x.logs[k]), false))
            || (exists k :: k in x.extra && op == Operation(k, Bytes(x.extra[k]), false))
    ensures |SomeBundleOps(lib, x, |PARTS|)|
         == |x.accounts| + |x.code| + |x.storage| + |x.receipts| + |x.logs| + |x.extra|
  {
    hide SomeOps, SomeBundleOps, Ascii;
    SixParts(lib, x);
    PlainPartsAre(lib, x, op);
    LoweredPartsAre(lib, x, op);
    InSix(op, SomeOps(lib, x, Accounts), SomeOps(lib, x, Code), SomeOps(lib, x, Storage), SomeOps(lib, x, Receipts),
          SomeOps(lib, x, Logs), SomeOps(lib, x, Extra));
  }

  lemma InSix<T>(x: T, a: seq<T>, b: seq<T>, c: seq<T>, d: seq<T>, e: seq<T>, f: seq<T>)
    ensures x in a + b + c + d + e + f <==> x in a || x in b || x in c || x in d || x in e || x in f
    ensures |a + b + c + d + e + f| == |a| + |b| + |c| + |d| + |e| + |f|
  {}

  lemma LoweredPartsAre(lib: Lib, x: Bundle, op: Operation)
    ensures |SomeOps(lib, x, Accounts)| == |x.accounts| && |SomeOps(lib, x, Code)| == |x.code|
    ensures op in SomeOps(lib, x, Accounts) <==>
            exists k :: k in x.accounts &&
                        op == Operation(Ascii("account/") + lib.toLower(k), Bytes(x.accounts[k]), false)
    ensures op in SomeOps(lib, x, Code) <==>
            exists k :: k in x.code &&
                        op == Operation(Ascii("contract/code/") + lib.toLower(k), Bytes(x.code[k]), false)
  {
    hide SomeOps, Ascii;
    PartOpsAre(lib, x, Accounts, op);
    PartOpsAre(lib, x, Code, op);
  }

  lemma PlainPartsAre(lib: Lib, x: Bundle, op: Operation)
    ensures |SomeOps(lib, x, Storage)| == |x.storage| && |SomeOps(lib, x, Receipts)| == |x.receipts|
    ensures |SomeOps(lib, x, Logs)| == |x.logs| && |SomeOps(lib, x, Extra)| == |x.extra|
    ensures op in SomeOps(lib, x, Storage) <==>
            exists k :: k in x.storage && op == Operation(Ascii("contract-storage/") + k, Bytes(x.storage[k]), false)
    ensures op in SomeOps(lib, x, Receipts) <==>
            exists k :: k in x.receipts && op == Operation(Ascii("receipt/") + k, Bytes(x.receipts[k]), false)
    ensures op in SomeOps(lib, x, Logs) <==>
            exists k :: k in x.logs && op == Operation(Ascii("log/") + k, Bytes(x.logs[k]), false)
    ensures op in SomeOps(lib, x, Extra) <==> exists k :: k in x.extra && op == Operation(k, Bytes(x.extra[k]), false)
  {
    hide SomeOps, Ascii;
    PartOpsAre(lib, x, Storage, op);
    PartOpsAre(lib, x, Receipts, op);
    PartOpsAre(lib, x, Logs, op);
    PartOpsAre(lib, x, Extra, op);
  }

  /** The put of a member of one of the maps, under the prefix of that map. */
  ghost predicate PutsMember(lib: Lib, x: Bundle, op: Operation) {
    || (exists k :: k in x.accounts &&
                    op == Operation(Ascii("account/") + lib.toLower(k), Bytes(x.accounts[k]), false))
    || (exists k :: k in x.code && op == Operation(Ascii("contract/code/") + lib.toLower(k), Bytes(x.code[k]), false))
    || (exists k :: k in x.storage && op == Operation(Ascii("contract-storage/") + k, Bytes(x.storage[k]), false))
    || (exists k :: k in x.receipts && op == Operation(Ascii("receipt/") + k, Bytes(x.receipts[k]), false))
    || (exists k :: k in x.logs && op == Operation(Ascii("log/") + k, Bytes(x.logs[k]), false))
    || (exists k :: k in x.extra && op == Operation(k, Bytes(x.extra[k]), false))
  }

  /** A list holds exactly the operations of a bundle. */
  ghost predicate StandsFor(lib: Lib, x: Bundle, ops: seq<Operation>) {
    && |ops| == |x.accounts| + |x.code| + |x.storage| + |x.receipts| + |x.logs| + |x.extra|
    && forall op :: op in ops <==> PutsMember(lib, x, op)
  }

  lemma MembersArePut(lib: Lib, x: Bundle, op: Operation)
    ensures op in SomeBundleOps(lib, x, |PARTS|) <==> PutsMember(lib, x, op)
    ensures op in SomeBundleOps(lib, x, |PARTS|) ==> op.value.Bytes? && !op.delete
  {
    hide Ascii, SomeBundleOps;
    BundleOpsAre(lib, x, op);
  }

  lemma ArrangementStandsFor(lib: Lib, x: Bundle, ops: seq<Operation>)
    requires multiset(ops) == multiset(SomeBundleOps(lib, x, |PARTS|))
    ensures StandsFor(lib, x, ops)
    ensures forall op | op in ops :: op.value.Bytes? && !op.delete
  {
    hide SomeBundleOps, PutsMember;
    var all := SomeBundleOps(lib, x, |PARTS|);
    assert |ops| == |multiset(ops)| == |multiset(all)| == |all|;
    BundleSize(lib, x);
    forall op
      ensures op in ops <==> PutsMember(lib, x, op)
      ensures op in ops ==> op.value.Bytes? && !op.delete
    {
      assert op in ops <==> op in multiset(ops);
      assert op in all <==> op in multiset(all);
      MembersArePut(lib, x, op);
    }
  }

  lemma BundleSize(lib: Lib, x: Bundle)
    ensures |SomeBundleOps(lib, x, |PARTS|)|
         == |x.accounts| + |x.code| + |x.storage| + |x.receipts| + |x.logs| + |x.extra|
  {
    BundleOpsAre(lib, x, Operation([], Nil, false));
  }

  lemma SixParts(lib: Lib, x: Bundle)
    ensures SomeBundleOps(lib, x, |PARTS|)
         == SomeOps(lib, x, Accounts) + SomeOps(lib, x, Code) + SomeOps(lib, x, Storage) + SomeOps(lib, x, Receipts)
            + SomeOps(lib, x, Logs) + SomeOps(lib, x, Extra)
  {
    hide SomeOps;
    assert SomeBundleOps(lib, x, 0) == [];
    assert SomeBundleOps(lib, x, 1) == SomeOps(lib, x, Accounts);
    assert SomeBundleOps(lib, x, 2) == SomeBundleOps(lib, x, 1) + SomeOps(lib, x, Code);
    assert SomeBundleOps(lib, x, 3) == SomeBundleOps(lib, x, 2) + SomeOps(lib, x, Storage);
    assert SomeBundleOps(lib, x, 4) == SomeBundleOps(lib, x, 3) + SomeOps(lib, x, Receipts);
    assert SomeBundleOps(lib, x, 5) == SomeBundleOps(lib, x, 4) + SomeOps(lib, x, Logs);
  }

  /** The members that must be JSON are accounts, receipts and logs. */
  lemma ValidExactly(lib: Lib, x: Bundle)
    ensures BundleIsValid(lib, x) <==>
            && (forall k | k in x.accounts :: lib.validJson(x.accounts[k]))
            && (forall k | k in x.receipts :: lib.validJson(x.receipts[k]))
            && (forall k | k in x.logs :: lib.validJson(x.logs[k]))
  {
    hide PartIsValid;
    PartsValid(lib, x);
    assert PARTS[0] == Accounts && PARTS[1] == Code && PARTS[2] == Storage && PARTS[3] == Receipts
        && PARTS[4] == Logs && PARTS[5] == Extra;
    forall i | 0 <= i < |PARTS|
      ensures PARTS[i] in {Accounts, Code, Storage, Receipts, Logs, Extra}
    {
    }
  }

  lemma PartsValid(lib: Lib, x: Bundle)
    ensures PartIsValid(lib, x, Code) && PartIsValid(lib, x, Storage) && PartIsValid(lib, x, Extra)
    ensures PartIsValid(lib, x, Accounts) <==> forall k | k in x.accounts :: lib.validJson(x.accounts[k])
    ensures PartIsValid(lib, x, Receipts) <==> forall k | k in x.receipts :: lib.validJson(x.receipts[k])
    ensures PartIsValid(lib, x, Logs) <==> forall k | k in x.logs :: lib.validJson(x.logs[k])
  {
    assert Members(x, Accounts) == x.accounts && Members(x, Receipts) == x.receipts && Members(x, Logs) == x.logs;
    if PartIsValid(lib, x, Accounts) {
      forall k | k in x.accounts ensures lib.validJson(x.accounts[k]) { assert k in Members(x, Accounts); }
    }
    if PartIsValid(lib, x, Receipts) {
      forall k | k in x.receipts ensures lib.validJson(x.receipts[k]) { assert k in Members(x, Receipts); }
    }
    if PartIsValid(lib, x, Logs) {
      forall k | k in x.logs ensures lib.validJson(x.logs[k]) { assert k in Members(x, Logs); }
    }
  }

  lemma KeyOrder()
    ensures TotalOrder(KeyAtMost)
  {
    ByteOrder();
  }

  /** With pairwise distinct generated keys, any sorted arrangement of the operations is the same list, however
      the maps were ranged over and however the sort treats ties. */
  lemma OrderDoesNotMatter(lib: Lib, x: Bundle, ops: seq<Operation>)
    requires KeysDistinct(lib, x)
    requires multiset(ops) == multiset(SomeBundleOps(lib, x, |PARTS|)) && Ascending(ops, KeyAtMost)
    ensures ops == BundleOps(lib, x)
  {
    var all := SomeBundleOps(lib, x, |PARTS|);
    KeyOrder();
    SortSorts(all, KeyAtMost);
    forall i, j | 0 <= i < |ops| && 0 <= j < |ops| && KeyAtMost(ops[i], ops[j]) && KeyAtMost(ops[j], ops[i])
      ensures ops[i] == ops[j]
    {
      AtMostTotal(ops[i].key, ops[j].key);
      assert ops[i] in multiset(ops) && ops[j] in multiset(ops);
      OpsHaveOrigins(lib, x, |PARTS|, ops[i]);
      OpsHaveOrigins(lib, x, |PARTS|, ops[j]);
    }
    SortIsUnique(ops, BundleOps(lib, x), KeyAtMost);
  }

  // ----- when are the keys distinct -----

  ghost predicate LowersApart(lib: Lib, m: map<ByteString, ByteString>) {
    forall k, j | k in m && j in m && lib.toLower(k) == lib.toLower(j) :: k == j
  }

  /** No key of the free-form part is one that another part generates. */
  ghost predicate ExtraApart(lib: Lib, x: Bundle) {
    forall p, k | p != Extra && k in Members(x, p) :: KeyOf(lib, p, k) !in x.extra
  }

  lemma PrefixesApart(p: Part, q: Part, lib: Lib, k: ByteString, j: ByteString)
    requires p != Extra && q != Extra && KeyOf(lib, p, k) == KeyOf(lib, q, j)
    ensures p == q
  {
    var a, b := KeyOf(lib, p, k), KeyOf(lib, q, j);
    assert a[0] == b[0];
    assert p.Code? ==> a[8] == '/' as int as byte;
    assert p.Storage? ==> a[8] == '-' as int as byte;
    assert q.Code? ==> b[8] == '/' as int as byte;
    assert q.Storage? ==> b[8] == '-' as int as byte;
  }

  lemma SamePartSameKey(lib: Lib, x: Bundle, p: Part, k: ByteString, j: ByteString)
    requires k in Members(x, p) && j in Members(x, p) && KeyOf(lib, p, k) == KeyOf(lib, p, j)
    requires LowersApart(lib, x.accounts) && LowersApart(lib, x.code)
    ensures k == j
  {
    match p
    case Accounts => CutPrefix(ACCOUNT, lib.toLower(k), lib.toLower(j));
    case Code => CutPrefix(CONTRACT_CODE, lib.toLower(k), lib.toLower(j));
    case Storage => CutPrefix(CONTRACT_STORAGE, k, j);
    case Receipts => CutPrefix(RECEIPT, k, j);
    case Logs => CutPrefix(LOG, k, j);
    case Extra =>
  }

  lemma CutPrefix(p: ByteString, s: ByteString, t: ByteString)
    requires p + s == p + t
    ensures s == t
  {
    assert (p + s)[|p|..] == s && (p + t)[|p|..] == t;
  }

  lemma DistinctNeeds(lib: Lib, x: Bundle)
    requires KeysDistinct(lib, x)
    ensures LowersApart(lib, x.accounts) && LowersApart(lib, x.code) && ExtraApart(lib, x)
  {
    assert Members(x, Accounts) == x.accounts && Members(x, Code) == x.code && Members(x, Extra) == x.extra;
    forall k, j | k in x.accounts && j in x.accounts && lib.toLower(k) == lib.toLower(j) ensures k == j {
      assert KeyOf(lib, Accounts, k) == KeyOf(lib, Accounts, j);
    }
    forall k, j | k in x.code && j in x.code && lib.toLower(k) == lib.toLower(j) ensures k == j {
      assert KeyOf(lib, Code, k) == KeyOf(lib, Code, j);
    }
    forall p, k | p != Extra && k in Members(x, p) ensures KeyOf(lib, p, k) !in x.extra {
      assert KeyOf(lib, Extra, KeyOf(lib, p, k)) == KeyOf(lib, p, k);
    }
  }

  /** The domain prefixes keep the keys of different parts apart; so they are all distinct exactly when
      lower-casing merges no two accounts and no two contracts, and the free-form part avoids the rest. */
  lemma DistinctExactlyWhen(lib: Lib, x: Bundle)
    ensures KeysDistinct(lib, x) <==> LowersApart(lib, x.accounts) && LowersApart(lib, x.code) && ExtraApart(lib, x)
  {
    if KeysDistinct(lib, x) { DistinctNeeds(lib, x); }
    if LowersApart(lib, x.accounts) && LowersApart(lib, x.code) && ExtraApart(lib, x) {
      forall p, k, q, j | k in Members(x, p) && j in Members(x, q) && KeyOf(lib, p, k) == KeyOf(lib, q, j)
        ensures p == q && k == j
      {
        assert p != Extra && q == Extra ==> KeyOf(lib, q, j) in x.extra;
        assert p == Extra && q != Extra ==> KeyOf(lib, p, k) in x.extra;
        if p != Extra && q != Extra { PrefixesApart(p, q, lib, k, j); }
        SamePartSameKey(lib, x, p, k, j);
      }
    }
  }
}
