/** Runs of opens, commits and crashes: after any of them the next open finds every acknowledged block. */
module CrashSafety {
  import opened ByteStrings
  import opened Lists
  import opened Options
  import opened Model
  import opened Chain
  import opened Frames
  import opened Log
  import opened Opening

  // ----- crashes -----

  /** A write that a crash cuts short leaves a prefix of its bytes; the other steps happen or do not. */
  function Tear(d: Disk, e: Effect, t: nat): Disk {
    match e
    case WriteTmp(bytes) => if t <= |bytes| then Perform(d, WriteTmp(bytes[..t])) else d
    case Append(bytes) => if t <= |bytes| then Perform(d, Append(bytes[..t])) else d
    case _ => d
  }

  /** The disk after a crash that let some steps finish and cut the next one short. */
  function Crashed(d: Disk, es: seq<Effect>, done: nat, torn: nat): Disk
    requires done <= |es|
  {
    var now := PerformAll(d, es[..done]);
    if done < |es| then Tear(now, es[done], torn) else now
  }

  /** The one crash that is not covered: an append cut exactly behind its frame header. */
  predicate TearsCleanly(es: seq<Effect>, done: nat, torn: nat)
    requires done <= |es|
  {
    done < |es| && es[done].Append? ==> torn != HEADER
  }

  // ----- what a disk recovers to -----

  /** The log is a list of blocks that loads. */
  ghost predicate Holds(lib: Lib, segs: seq<ByteString>, bs: seq<Block>) {
    CleanLog(lib, segs) && LogBlocks(lib, segs) == bs && LoadAll(lib, bs).Some?
  }

  /** A block that may follow the list on disk: it loads, the disk keeps it as it is, it fits a segment, and its
      record hash is not the last one's. */
  ghost predicate Admissible(lib: Lib, size: nat, bs: seq<Block>, b: Block) {
    && LoadAll(lib, bs).Some? && Loads(lib, LoadAll(lib, bs).value, b)
    && Normalised(b) && Fits(lib, size, b) && MustReplay(bs, b)
  }

  /** A block that may be committed behind a list: it loads, holds no empty value that is not nil, fits a segment,
      and has a new record hash. */
  ghost predicate MayFollow(lib: Lib, size: nat, bs: seq<Block>, b: Block) {
    && LoadAll(lib, bs).Some? && AllKept(bs) && Loads(lib, LoadAll(lib, bs).value, b)
    && ValuesKept(b) && Fits(lib, size, b) && MustReplay(bs, b)
  }

  ghost predicate Quiet(lib: Lib, d: Disk, bs: seq<Block>) {
    Holds(lib, d.segs, bs) && d.wal == None
  }

  /** The write-ahead log is one block ahead of the log, which may end in a torn copy of that block. */
  ghost predicate Ahead(lib: Lib, size: nat, d: Disk, bs: seq<Block>, b: Block) {
    && Admissible(lib, size, bs, b)
    && d.wal == Some(FrameOf(lib, lib.encode(b)))
    && exists clean, t :: TornBehind(lib, d.segs, clean, b, t) && Holds(lib, clean, bs)
  }

  ghost predicate TornBehind(lib: Lib, segs: seq<ByteString>, clean: seq<ByteString>, b: Block, t: nat) {
    var frame := FrameOf(lib, lib.encode(b));
    t < |frame| && t != HEADER && |clean| > 0 && segs == GrowLast(clean, frame[..t])
  }

  /** The block of the write-ahead log is the last one of the log already. */
  ghost predicate Behind(lib: Lib, size: nat, d: Disk, bs: seq<Block>, b: Block) {
    && Admissible(lib, size, bs, b)
    && d.wal == Some(FrameOf(lib, lib.encode(b)))
    && Holds(lib, d.segs, bs + [b])
  }

  /** The write-ahead log is absent, or is exactly the last block, or is exactly the next one. */
  ghost predicate Recoverable(lib: Lib, size: nat, d: Disk, bs: seq<Block>) {
    || Quiet(lib, d, bs)
    || (|bs| > 0 && Ahead(lib, size, d, bs[..|bs| - 1], bs[|bs| - 1]))
    || (|bs| > 0 && Behind(lib, size, d, bs[..|bs| - 1], bs[|bs| - 1]))
  }

  /** A block that a commit refuses as longer than a segment, below the limit of its length field. */
  ghost predicate TooLong(lib: Lib, size: nat, b: Block) {
    !Fits(lib, size, b) && |Stored(lib, lib.encode(b))| < TWO_TO_THE_32
  }

  /** The write-ahead log is a new block that is too long, left by a refused commit. */
  ghost predicate Blocked(lib: Lib, size: nat, d: Disk, bs: seq<Block>) {
    && Holds(lib, d.segs, bs) && |d.segs| > 0
    && exists b :: TooLong(lib, size, b) && MustReplay(bs, b) && d.wal == Some(FrameOf(lib, lib.encode(b)))
  }

  // ----- the log under single steps -----

  lemma LoadedHeights(lib: Lib, bs: seq<Block>)
    requires LoadAll(lib, bs).Some?
    ensures InHeightOrder(bs)
  {
    forall i | 0 <= i < |bs| ensures bs[i].header.height == i + 1 {
      EachLoads(lib, bs, i);
    }
  }

  lemma NextLoads(lib: Lib, size: nat, bs: seq<Block>, b: Block)
    requires Admissible(lib, size, bs, b)
    ensures LoadAll(lib, bs + [b]) == Some(Applied(LoadAll(lib, bs).value, b))
    ensures Norm(b) == b
  {
    LoadSnoc(lib, bs, b);
    NormKeepsExactlyNormalised(b);
  }

  /** As the disk keeps it, such a block is admissible, and its frame is the same. */
  lemma FollowsAdmissibly(lib: Lib, size: nat, bs: seq<Block>, b: Block)
    requires lib.Sound() && MayFollow(lib, size, bs, b)
    ensures Admissible(lib, size, NormAll(bs), Norm(b))
    ensures lib.encode(Norm(b)) == lib.encode(b)
    ensures NormAll(bs + [b]) == NormAll(bs) + [Norm(b)]
    ensures LoadAll(lib, bs + [b]).Some? && AllKept(bs + [b])
  {
    hide LoadAll, Loads, ValuesKept, Normalised, Norm, Shown, NormAll, ShownAll, LastHash, FrameOf, Lib.Sound, Applied;
    SameEncoding(lib, b);
    KeptReload(lib, bs);
    KeptAreShown(bs);
    ShownTip(bs);
    LoadedLedger(lib, bs);
    NormKeepsExactlyNormalised(b);
    NormSnoc(bs, b);
    LoadSnoc(lib, bs, b);
    KeptFollows(lib, LoadAll(lib, bs).value, b);
  }

  lemma KeptFollows(lib: Lib, c: Ledger, b: Block)
    requires lib.Sound() && ValuesKept(b) && Loads(lib, c, b) && NormAll(c.blocks) == ShownAll(c.blocks)
    ensures Loads(lib, c.(blocks := NormAll(c.blocks)), Norm(b))
  {
    hide Loads, Applied, Norm, Shown, Lib.Sound, ValuesKept, NormAll, ShownAll;
    NormIsShownExactly(b);
    ShownLoads(lib, c, b);
  }

  lemma CreateHolds(lib: Lib, segs: seq<ByteString>, bs: seq<Block>)
    requires Holds(lib, segs, bs)
    ensures Holds(lib, segs + [[]], bs)
  {
    hide CleanLog, LogBlocks, IndexOf, LoadAll, Clean, Entries;
    NoFrames(lib);
    LogSnoc(lib, segs, []);
    assert bs + BlocksOf([]) == bs;
  }

  lemma GrowHolds(lib: Lib, size: nat, segs: seq<ByteString>, bs: seq<Block>, b: Block)
    requires lib.Sound() && size <= MAX_RECORD
    requires Holds(lib, segs, bs) && |segs| > 0 && Admissible(lib, size, bs, b)
    ensures Holds(lib, GrowLast(segs, FrameOf(lib, lib.encode(b))), bs + [b])
  {
    NextLoads(lib, size, bs, b);
    FittingIsFramable(lib, size, b);
    hide CleanLog, LogBlocks, IndexOf, LoadAll, FrameOf, Framable, Loads, Fits, Clean, Normalised, Norm, MustReplay;
    var last := |segs| - 1;
    Snoc(segs);
    LogSnoc(lib, segs[..last], segs[last]);
    AppendLast(lib, segs[..last], segs[last], b);
  }

  /** Replaying a block from the write-ahead log onto a clean log: whenever a crash comes, the block is not
      lost, and at the end the log is quiet with it. */
  lemma ReplayCrashes(lib: Lib, size: nat, d: Disk, bs: seq<Block>, b: Block, done: nat, torn: nat)
    requires lib.Sound() && size <= MAX_RECORD
    requires Holds(lib, d.segs, bs) && |d.segs| > 0 && Admissible(lib, size, bs, b)
    requires d.wal == Some(FrameOf(lib, lib.encode(b)))
    requires var es := AppendEffects(size, d.segs, FrameOf(lib, lib.encode(b))) + [RemoveWal];
             done <= |es| && TearsCleanly(es, done, torn)
    ensures var es := AppendEffects(size, d.segs, FrameOf(lib, lib.encode(b))) + [RemoveWal];
            Recoverable(lib, size, Crashed(d, es, done, torn), bs + [b])
  {
    hide Holds, Admissible, FrameOf;
    var frame := FrameOf(lib, lib.encode(b));
    var es := AppendEffects(size, d.segs, frame) + [RemoveWal];
    if |es| == 2 {
      assert es == [Append(frame), RemoveWal];
      AppendCrashes(lib, size, d, bs, b, done, torn);
    } else {
      assert es == [CreateSegment, Append(frame), RemoveWal];
      CreateHolds(lib, d.segs, bs);
      var d1 := Perform(d, CreateSegment);
      if done == 0 {
        assert es[..0] == [];
        NothingTorn(lib, size, d, bs, b);
      } else {
        var rest := [Append(frame), RemoveWal];
        assert es[..done] == [CreateSegment] + rest[..done - 1];
        PerformSplit(d, [CreateSegment], rest[..done - 1]);
        PerformOne(d, CreateSegment);
        AppendCrashes(lib, size, d1, bs, b, done - 1, torn);
      }
    }
  }

  lemma PerformOne(d: Disk, e: Effect)
    ensures PerformAll(d, [e]) == Perform(d, e)
  {
    assert [e][..0] == [];
  }

  lemma PerformTwo(d: Disk, e: Effect, f: Effect)
    ensures PerformAll(d, [e, f]) == Perform(Perform(d, e), f)
  {
    assert [e, f] == [e] + [f];
    PerformSplit(d, [e], [f]);
    PerformOne(d, e);
    PerformOne(Perform(d, e), f);
  }

  lemma NothingTorn(lib: Lib, size: nat, d: Disk, bs: seq<Block>, b: Block)
    requires Holds(lib, d.segs, bs) && |d.segs| > 0 && Admissible(lib, size, bs, b)
    requires d.wal == Some(FrameOf(lib, lib.encode(b)))
    ensures Recoverable(lib, size, d, bs + [b])
  {
    hide Holds, Admissible, FrameOf;
    var frame := FrameOf(lib, lib.encode(b));
    Snoc(d.segs);
    assert d.segs[|d.segs| - 1] + frame[..0] == d.segs[|d.segs| - 1];
    assert TornBehind(lib, d.segs, d.segs, b, 0);
    AheadIsRecoverable(lib, size, d, bs, b);
  }

  lemma AheadIsRecoverable(lib: Lib, size: nat, d: Disk, bs: seq<Block>, b: Block)
    requires Ahead(lib, size, d, bs, b) || Behind(lib, size, d, bs, b) || Quiet(lib, d, bs + [b])
    ensures Recoverable(lib, size, d, bs + [b])
  {
    hide Ahead, Behind, Quiet;
    assert (bs + [b])[..|bs|] == bs;
  }

  lemma AppendCrashes(lib: Lib, size: nat, d: Disk, bs: seq<Block>, b: Block, done: nat, torn: nat)
    requires lib.Sound() && size <= MAX_RECORD
    requires Holds(lib, d.segs, bs) && |d.segs| > 0 && Admissible(lib, size, bs, b)
    requires d.wal == Some(FrameOf(lib, lib.encode(b)))
    requires done <= 2 && TearsCleanly([Append(FrameOf(lib, lib.encode(b))), RemoveWal], done, torn)
    ensures Recoverable(lib, size, Crashed(d, [Append(FrameOf(lib, lib.encode(b))), RemoveWal], done, torn), bs + [b])
  {
    hide Holds, Admissible, FrameOf, Recoverable;
    var frame := FrameOf(lib, lib.encode(b));
    var es := [Append(frame), RemoveWal];
    var d' := Crashed(d, es, done, torn);
    GrowHolds(lib, size, d.segs, bs, b);
    if done == 0 {
      assert es[..0] == [];
      if torn >= |frame| {
        assert torn == |frame| ==> frame[..torn] == frame;
        if torn == |frame| { AheadIsRecoverable(lib, size, d', bs, b); } else { NothingTorn(lib, size, d, bs, b); }
      } else {
        assert TornBehind(lib, d'.segs, d.segs, b, torn);
        AheadIsRecoverable(lib, size, d', bs, b);
      }
    } else if done == 1 {
      assert es[..1] == [Append(frame)];
      PerformOne(d, Append(frame));
      AheadIsRecoverable(lib, size, d', bs, b);
    } else {
      assert es[..2] == es;
      PerformTwo(d, Append(frame), RemoveWal);
      AheadIsRecoverable(lib, size, d', bs, b);
    }
  }

  // ----- opening -----

  /** Once the segments are clean, opening reads and loads the list and turns to the write-ahead log. */
  lemma OpenVia(lib: Lib, size: nat, d: Disk, d1: Disk, es: seq<Effect>, bs: seq<Block>)
    requires Recover(lib, d.segs).Some? && Opened(lib, d) == (d1, IndexOf(lib, d1.segs), es)
    requires Holds(lib, d1.segs, bs) && |d1.segs| > 0
    ensures LoadAll(lib, bs).value.blocks == bs
    ensures OpenDisk(lib, size, d) == FinishOpen(lib, size, d1, LoadAll(lib, bs).value, es)
  {
    LoadedLedger(lib, bs);
    LoadedHeights(lib, bs);
    ReadAllIsLog(lib, d1.segs);
    hide Recover, Opened, IndexOf, LoadAll, CleanLog, LogBlocks, ReadAllOf, FinishOpen;
  }

  /** How a clean log opens: as it is, or with its first segment created. */
  lemma CleanOpened(lib: Lib, d: Disk, bs: seq<Block>)
    requires Holds(lib, d.segs, bs)
    ensures var d1 := if |d.segs| == 0 then d.(segs := [[]]) else d;
            var es := if |d.segs| == 0 then [CreateSegment] else [];
            && Recover(lib, d.segs).Some? && Opened(lib, d) == (d1, IndexOf(lib, d1.segs), es)
            && Holds(lib, d1.segs, bs) && |d1.segs| > 0 && d1 == PerformAll(d, es)
  {
    hide LoadAll, CleanLog, LogBlocks, Clean, Entries;
    CleanRecovers(lib, d.segs);
    if |d.segs| == 0 {
      CreateHolds(lib, d.segs, bs);
      NoFrames(lib);
      LogSnoc(lib, [], []);
      var first: seq<ByteString> := [[]];
      assert [] + first == first && d.segs == [];
      assert [] + [CreateSegment] == [CreateSegment];
      PerformOne(d, CreateSegment);
    }
  }

  /** How a log with a torn block opens: with the tail cut off. */
  lemma TornOpened(lib: Lib, size: nat, d: Disk, clean: seq<ByteString>, bs: seq<Block>, b: Block, t: nat)
    requires lib.Sound() && size <= MAX_RECORD && Admissible(lib, size, bs, b)
    requires TornBehind(lib, d.segs, clean, b, t) && Holds(lib, clean, bs)
    ensures var es := if t == 0 then [] else [Truncate(|clean| - 1, |clean[|clean| - 1]|)];
            && Recover(lib, d.segs).Some?
            && Opened(lib, d) == (d.(segs := clean), IndexOf(lib, clean), es)
            && d.(segs := clean) == PerformAll(d, es)
  {
    FittingIsFramable(lib, size, b);
    HoldsIsClean(lib, clean, bs);
    hide Holds, LoadAll, Loads, LogBlocks, CleanLog, Framable, FrameOf, IndexOf, Recover, Admissible;
    var tail := FrameOf(lib, lib.encode(b))[..t];
    TornRecovers(lib, clean, b, t);
    CutTail(d, clean, tail);
    if t == 0 {
      assert tail == [];
      EmptyTail(clean);
    }
  }

  lemma EmptyTail(clean: seq<ByteString>)
    requires |clean| > 0
    ensures GrowLast(clean, []) == clean
  {
    Snoc(clean);
    assert clean[|clean| - 1] + [] == clean[|clean| - 1];
  }

  lemma CutTail(d: Disk, clean: seq<ByteString>, tail: ByteString)
    requires |clean| > 0 && d.segs == GrowLast(clean, tail)
    ensures PerformAll(d, [Truncate(|clean| - 1, |clean[|clean| - 1]|)]) == d.(segs := clean)
  {
    var last := |clean| - 1;
    var cut := Truncate(last, |clean[last]|);
    PerformOne(d, cut);
    Snoc(clean);
    assert d.segs[last] == clean[last] + tail;
    assert d.segs[last][..|clean[last]|] == clean[last];
    assert d.segs[last := clean[last]] == clean;
  }

  lemma HoldsIsClean(lib: Lib, segs: seq<ByteString>, bs: seq<Block>)
    requires Holds(lib, segs, bs)
    ensures CleanLog(lib, segs)
  {}

  lemma HoldsNonempty(lib: Lib, segs: seq<ByteString>, bs: seq<Block>)
    requires Holds(lib, segs, bs) && |bs| > 0
    ensures |segs| > 0
  {}

  /** What is written ahead reads back as the admissible block. */
  lemma WalIsBlock(lib: Lib, size: nat, d: Disk, bs: seq<Block>, b: Block)
    requires lib.Sound() && size <= MAX_RECORD && Admissible(lib, size, bs, b)
    requires d.wal == Some(FrameOf(lib, lib.encode(b)))
    ensures WalOf(lib, d.wal) == Wal(b)
  {
    FittingIsFramable(lib, size, b);
    NextLoads(lib, size, bs, b);
    hide LoadAll, Loads, FrameOf, Framable, WalOf, Fits;
    WalReadsBack(lib, b);
  }

  /** What it means for a directory to open to a list: the steps taken make the disk quiet with it. */
  ghost predicate OpensTo(lib: Lib, size: nat, d: Disk, bs: seq<Block>) {
    match OpenDisk(lib, size, d)
    case Fails => false
    case Opens(c, d', es) =>
      && c.blocks == bs && LoadAll(lib, bs) == Some(c)
      && d' == PerformAll(d, es) && |d'.segs| > 0 && Quiet(lib, d', bs)
  }

  /** No crash while opening loses or adds a block. */
  ghost predicate OpenCrashesTo(lib: Lib, size: nat, d: Disk, bs: seq<Block>) {
    match OpenDisk(lib, size, d)
    case Fails => false
    case Opens(_, _, es) =>
      forall done: nat, torn: nat | done <= |es| && TearsCleanly(es, done, torn) ::
        Recoverable(lib, size, Crashed(d, es, done, torn), bs)
  }

  lemma QuietOpens(lib: Lib, size: nat, d: Disk, bs: seq<Block>)
    requires Quiet(lib, d, bs)
    ensures OpensTo(lib, size, d, bs) && OpenCrashesTo(lib, size, d, bs)
  {
    hide Holds, IndexOf, LoadAll, Recover, Opened, OpenDisk;
    CleanOpened(lib, d, bs);
    var d1 := if |d.segs| == 0 then d.(segs := [[]]) else d;
    var es := if |d.segs| == 0 then [CreateSegment] else [];
    OpenVia(lib, size, d, d1, es, bs);
    assert Holds(lib, d1.segs, bs);
    forall done: nat, torn: nat | done <= |es| && TearsCleanly(es, done, torn)
      ensures Recoverable(lib, size, Crashed(d, es, done, torn), bs)
    {
      assert es[..0] == [];
      assert es[..|es|] == es;
      assert Crashed(d, es, done, torn) == d || Crashed(d, es, done, torn) == d1;
    }
    LoadedSome(lib, bs, d1.segs);
    assert OpenDisk(lib, size, d) == Opens(LoadAll(lib, bs).value, d1, es);
  }

  lemma LoadedSome(lib: Lib, bs: seq<Block>, segs: seq<ByteString>)
    requires Holds(lib, segs, bs)
    ensures LoadAll(lib, bs).Some?
  {}

  lemma BehindOpens(lib: Lib, size: nat, d: Disk, bs: seq<Block>, b: Block)
    requires lib.Sound() && size <= MAX_RECORD && Behind(lib, size, d, bs, b)
    ensures OpensTo(lib, size, d, bs + [b]) && OpenCrashesTo(lib, size, d, bs + [b])
  {
    hide Holds, IndexOf, LoadAll, Recover, Opened, OpenDisk, Loads, Admissible, FrameOf, WalOf, Recoverable;
    HoldsNonempty(lib, d.segs, bs + [b]);
    CleanOpened(lib, d, bs + [b]);
    OpenVia(lib, size, d, d, [], bs + [b]);
    WalIsBlock(lib, size, d, bs, b);
    LoadedSome(lib, bs + [b], d.segs);
    var es := [RemoveWal];
    assert [] + es == es;
    PerformOne(d, RemoveWal);
    var d1 := d.(wal := None);
    assert OpenDisk(lib, size, d) == Opens(LoadAll(lib, bs + [b]).value, d1, es);
    forall done: nat, torn: nat | done <= |es| && TearsCleanly(es, done, torn)
      ensures Recoverable(lib, size, Crashed(d, es, done, torn), bs + [b])
    {
      assert es[..0] == [];
      assert es[..1] == es;
      assert Crashed(d, es, done, torn) == d || Crashed(d, es, done, torn) == d1;
      AheadIsRecoverable(lib, size, Crashed(d, es, done, torn), bs, b);
    }
  }

  lemma AheadOpens(lib: Lib, size: nat, d: Disk, bs: seq<Block>, b: Block)
    requires lib.Sound() && size <= MAX_RECORD && Ahead(lib, size, d, bs, b)
    ensures OpensTo(lib, size, d, bs + [b]) && OpenCrashesTo(lib, size, d, bs + [b])
  {
    hide Holds, IndexOf, LoadAll, Recover, Opened, OpenDisk, Loads, FrameOf, WalOf, Recoverable, TornBehind,
         Crashed;
    var clean, t :| TornBehind(lib, d.segs, clean, b, t) && Holds(lib, clean, bs);
    AheadOpensVia(lib, size, d, bs, b, clean, t);
  }

  lemma AheadOpensVia(lib: Lib, size: nat, d: Disk, bs: seq<Block>, b: Block, clean: seq<ByteString>, t: nat)
    requires lib.Sound() && size <= MAX_RECORD && Ahead(lib, size, d, bs, b)
    requires TornBehind(lib, d.segs, clean, b, t) && Holds(lib, clean, bs)
    ensures OpensTo(lib, size, d, bs + [b]) && OpenCrashesTo(lib, size, d, bs + [b])
  {
    hide Holds, IndexOf, LoadAll, Recover, Opened, OpenDisk, Loads, Admissible, FrameOf, WalOf, Recoverable, TornBehind,
         Crashed, AppendEffects, AppendTo, OpensTo, OpenCrashesTo, FinishOpen, Ahead;
    TornParts(lib, d.segs, clean, b, t);
    AheadParts(lib, size, d, bs, b);
    var frame := FrameOf(lib, lib.encode(b));
    var es0 := if t == 0 then [] else [Truncate(|clean| - 1, |clean[|clean| - 1]|)];
    var d1 := d.(segs := clean);
    TornOpened(lib, size, d, clean, bs, b, t);
    OpenVia(lib, size, d, d1, es0, bs);
    ReplayFinishes(lib, size, d1, bs, b, es0);
    var es1 := AppendEffects(size, clean, frame) + [RemoveWal];
    var d2 := Disk(AppendTo(size, clean, frame), None, d.tmp);
    assert es0 + AppendEffects(size, clean, frame) + [RemoveWal] == es0 + es1;
    PerformSplit(d, es0, es1);
    ReplayCompletes(lib, size, d1, bs, b);
    OpensToIntro(lib, size, d, bs + [b], d2, es0 + es1);
    AheadCrashes(lib, size, d, bs, b, clean, es0);
    OpenCrashesIntro(lib, size, d, bs + [b], es0 + es1);
  }

  lemma AheadCrashes(lib: Lib, size: nat, d: Disk, bs: seq<Block>, b: Block, clean: seq<ByteString>, es0: seq<Effect>)
    requires lib.Sound() && size <= MAX_RECORD && Ahead(lib, size, d, bs, b)
    requires |es0| == 0 || (|es0| == 1 && es0[0].Truncate?)
    requires |clean| > 0 && Holds(lib, clean, bs) && PerformAll(d, es0) == d.(segs := clean)
    ensures var es := es0 + (AppendEffects(size, clean, FrameOf(lib, lib.encode(b))) + [RemoveWal]);
            forall done: nat, torn: nat | done <= |es| && TearsCleanly(es, done, torn) ::
              Recoverable(lib, size, Crashed(d, es, done, torn), bs + [b])
  {
    hide Holds, Admissible, FrameOf, Recoverable, Crashed, AppendEffects, Ahead, TearsCleanly, PerformAll;
    AheadParts(lib, size, d, bs, b);
    var es1 := AppendEffects(size, clean, FrameOf(lib, lib.encode(b))) + [RemoveWal];
    forall done: nat, torn: nat | done <= |es0 + es1| && TearsCleanly(es0 + es1, done, torn)
      ensures Recoverable(lib, size, Crashed(d, es0 + es1, done, torn), bs + [b])
    {
      if done < |es0| {
        TruncateCrash(d, es0, es1, torn);
        AheadIsRecoverable(lib, size, d, bs, b);
      } else {
        CrashLater(d, es0, es1, done, torn);
        ReplayCrashes(lib, size, d.(segs := clean), bs, b, done - |es0|, torn);
      }
    }
  }

  lemma TornParts(lib: Lib, segs: seq<ByteString>, clean: seq<ByteString>, b: Block, t: nat)
    requires TornBehind(lib, segs, clean, b, t)
    ensures |clean| > 0
  {}

  lemma AheadParts(lib: Lib, size: nat, d: Disk, bs: seq<Block>, b: Block)
    requires Ahead(lib, size, d, bs, b)
    ensures Admissible(lib, size, bs, b) && d.wal == Some(FrameOf(lib, lib.encode(b)))
  {}

  lemma OpensToIntro(lib: Lib, size: nat, d: Disk, bs: seq<Block>, d': Disk, es: seq<Effect>)
    requires LoadAll(lib, bs).Some? && OpenDisk(lib, size, d) == Opens(LoadAll(lib, bs).value, d', es)
    requires d' == PerformAll(d, es) && |d'.segs| > 0 && Quiet(lib, d', bs)
    ensures OpensTo(lib, size, d, bs)
  {
    LoadedLedger(lib, bs);
    hide OpenDisk, LoadAll, Quiet;
  }

  lemma OpenCrashesIntro(lib: Lib, size: nat, d: Disk, bs: seq<Block>, es: seq<Effect>)
    requires OpensTo(lib, size, d, bs) && OpenDisk(lib, size, d).effects == es
    requires forall done: nat, torn: nat | done <= |es| && TearsCleanly(es, done, torn) ::
               Recoverable(lib, size, Crashed(d, es, done, torn), bs)
    ensures OpenCrashesTo(lib, size, d, bs)
  {
    hide OpenDisk, Recoverable, Crashed, TearsCleanly, LoadAll, Quiet;
  }

  /** The first of some steps is a truncation, which a crash does not cut short. */
  lemma TruncateCrash(d: Disk, es0: seq<Effect>, es1: seq<Effect>, torn: nat)
    requires |es0| == 1 && es0[0].Truncate?
    ensures Crashed(d, es0 + es1, 0, torn) == d
  {
    assert (es0 + es1)[..0] == [];
  }

  /** A crash after the first steps is a crash of the remaining ones. */
  lemma CrashLater(d: Disk, es0: seq<Effect>, es1: seq<Effect>, done: nat, torn: nat)
    requires |es0| <= done <= |es0 + es1|
    ensures Crashed(d, es0 + es1, done, torn) == Crashed(PerformAll(d, es0), es1, done - |es0|, torn)
    ensures TearsCleanly(es0 + es1, done, torn) <==> TearsCleanly(es1, done - |es0|, torn)
  {
    assert (es0 + es1)[..done] == es0 + es1[..done - |es0|];
    PerformSplit(d, es0, es1[..done - |es0|]);
  }

  lemma ReplayFinishes(lib: Lib, size: nat, d1: Disk, bs: seq<Block>, b: Block, es0: seq<Effect>)
    requires lib.Sound() && size <= MAX_RECORD && Admissible(lib, size, bs, b) && |d1.segs| > 0
    requires d1.wal == Some(FrameOf(lib, lib.encode(b))) && LoadAll(lib, bs).value.blocks == bs
    ensures var frame := FrameOf(lib, lib.encode(b));
            && LoadAll(lib, bs + [b]).Some?
            && FinishOpen(lib, size, d1, LoadAll(lib, bs).value, es0)
            == Opens(LoadAll(lib, bs + [b]).value, Disk(AppendTo(size, d1.segs, frame), None, d1.tmp),
                     es0 + AppendEffects(size, d1.segs, frame) + [RemoveWal])
  {
    WalIsBlock(lib, size, d1, bs, b);
    NextLoads(lib, size, bs, b);
    FinishReplays(lib, size, d1, LoadAll(lib, bs).value, b, es0);
    hide LoadAll, Loads, FrameOf, WalOf, AppendTo, AppendEffects, Applied, Normalised, Fits, MustReplay, FinishOpen;
  }

  lemma FinishReplays(lib: Lib, size: nat, d1: Disk, c: Ledger, b: Block, es: seq<Effect>)
    requires |d1.segs| > 0 && WalOf(lib, d1.wal) == Wal(b)
    requires MustReplay(c.blocks, b) && Fits(lib, size, b) && Loads(lib, c, b)
    ensures var frame := FrameOf(lib, lib.encode(b));
            FinishOpen(lib, size, d1, c, es) ==
            Opens(Applied(c, b), Disk(AppendTo(size, d1.segs, frame), None, d1.tmp),
                  es + AppendEffects(size, d1.segs, frame) + [RemoveWal])
  {
    hide Loads, FrameOf, WalOf, AppendTo, AppendEffects, Applied, Fits, MustReplay;
  }

  /** All steps of the replay leave the log quiet with the block. */
  lemma ReplayCompletes(lib: Lib, size: nat, d1: Disk, bs: seq<Block>, b: Block)
    requires lib.Sound() && size <= MAX_RECORD && Admissible(lib, size, bs, b)
    requires Holds(lib, d1.segs, bs) && |d1.segs| > 0
    ensures var frame := FrameOf(lib, lib.encode(b));
            var d2 := Disk(AppendTo(size, d1.segs, frame), None, d1.tmp);
            && PerformAll(d1, AppendEffects(size, d1.segs, frame) + [RemoveWal]) == d2
            && |d2.segs| > 0 && Quiet(lib, d2, bs + [b])
  {
    var frame := FrameOf(lib, lib.encode(b));
    NextLoads(lib, size, bs, b);
    FittingIsFramable(lib, size, b);
    hide LoadAll, Loads, FrameOf, AppendEffects, Normalised, CleanLog, LogBlocks, IndexOf, Framable, MustReplay;
    AppendRefinesList(lib, size, d1.segs, b);
    AppendPerforms(size, d1, frame);
    PerformSplit(d1, AppendEffects(size, d1.segs, frame), [RemoveWal]);
    PerformOne(d1.(segs := AppendTo(size, d1.segs, frame)), RemoveWal);
  }

  /** Every recoverable directory opens to its list, and no crash on the way loses or adds a block. */
  lemma RecoverableOpens(lib: Lib, size: nat, d: Disk, bs: seq<Block>)
    requires lib.Sound() && size <= MAX_RECORD && Recoverable(lib, size, d, bs)
    ensures OpensTo(lib, size, d, bs) && OpenCrashesTo(lib, size, d, bs)
  {
    hide Quiet, Ahead, Behind, OpensTo, OpenCrashesTo;
    if Quiet(lib, d, bs) {
      QuietOpens(lib, size, d, bs);
    } else {
      var before, b := bs[..|bs| - 1], bs[|bs| - 1];
      Snoc(bs);
      if Ahead(lib, size, d, before, b) {
        AheadOpens(lib, size, d, before, b);
      } else {
        BehindOpens(lib, size, d, before, b);
      }
    }
  }

  /** After recovery its segments are clean. */
  lemma RecoverableIsCleaned(lib: Lib, size: nat, d: Disk, bs: seq<Block>)
    requires lib.Sound() && size <= MAX_RECORD && Recoverable(lib, size, d, bs)
    ensures Recover(lib, d.segs).Some? && CleanLog(lib, Opened(lib, d).0.segs)
  {
    hide Holds, LoadAll, Loads, CleanLog, LogBlocks, IndexOf, Recover, Opened, TornBehind, Admissible, FrameOf;
    if Quiet(lib, d, bs) {
      CleanOpened(lib, d, bs);
      HoldsIsClean(lib, Opened(lib, d).0.segs, bs);
    } else {
      var before, b := bs[..|bs| - 1], bs[|bs| - 1];
      if Behind(lib, size, d, before, b) {
        CleanOpened(lib, d, before + [b]);
        HoldsIsClean(lib, Opened(lib, d).0.segs, before + [b]);
      } else {
        var clean, t :| TornBehind(lib, d.segs, clean, b, t) && Holds(lib, clean, before);
        TornParts(lib, d.segs, clean, b, t);
        TornOpened(lib, size, d, clean, before, b, t);
        HoldsIsClean(lib, clean, before);
      }
    }
  }

  /** A blocked directory does not open. */
  lemma BlockedFails(lib: Lib, size: nat, d: Disk, bs: seq<Block>)
    requires lib.Sound() && size <= MAX_RECORD && Blocked(lib, size, d, bs)
    ensures OpenDisk(lib, size, d) == Fails
  {
    hide Holds, LoadAll, OpenDisk, FinishOpen, FrameOf, Recover, Opened, IndexOf, PerformAll, TooLong, MustReplay,
         Lib.Sound;
    var b :| TooLong(lib, size, b) && MustReplay(bs, b) && d.wal == Some(FrameOf(lib, lib.encode(b)));
    CleanOpened(lib, d, bs);
    OpenVia(lib, size, d, d, [], bs);
    LoadedSome(lib, bs, d.segs);
    BlockedFinish(lib, size, d, LoadAll(lib, bs).value, b);
  }

  lemma BlockedFinish(lib: Lib, size: nat, d: Disk, c: Ledger, b: Block)
    requires lib.Sound() && |d.segs| > 0
    requires TooLong(lib, size, b) && MustReplay(c.blocks, b) && d.wal == Some(FrameOf(lib, lib.encode(b)))
    ensures FinishOpen(lib, size, d, c, []) == Fails
  {
    hide FrameOf, Loads, WalOf, Norm, Stored, LastHash, Lib.Sound;
    SameEncoding(lib, b);
    WalReadsExactly(lib, b);
  }
}
