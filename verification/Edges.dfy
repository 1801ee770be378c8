/** Where crash safety ends: the bare header, and the block longer than a segment. */
module Edges {
  import opened ByteStrings
  import opened Lists
  import opened Options
  import opened Merkle
  import opened MerkleBinding
  import opened Model
  import opened Writes
  import opened Chain
  import opened Frames
  import opened Log
  import opened Opening
  import opened CrashSafety

  function BareHeader(lib: Lib, b: Block): (r: ByteString)
    ensures |r| == HEADER
  {
    FrameOf(lib, lib.encode(b))[..HEADER]
  }

  /** A bare header claims the bytes that are later written behind it; they pass for its payload only when their
      checksum happens to be the stray one. */
  ghost predicate HeaderMismatch(lib: Lib, b: Block) {
    var s := Stored(lib, lib.encode(b));
    lib.crc(FrameOf(lib, lib.encode(b))[..|s|]) != lib.crc(s)
  }

  lemma StrayHeaderReads(lib: Lib, b: Block, more: ByteString)
    requires Framable(lib, lib.encode(b)) && HeaderMismatch(lib, b)
    ensures ReadFrame(lib, BareHeader(lib, b) + (FrameOf(lib, lib.encode(b)) + more)) == Bad
  {
    var payload := lib.encode(b);
    var frame := FrameOf(lib, payload);
    var r := BareHeader(lib, b) + (frame + more);
    assert BareHeader(lib, b) == HeaderOf(lib, payload);
    assert r[..HEADER] == HeaderOf(lib, payload);
    HeaderWords(lib, payload, r);
    var l := |Stored(lib, payload)|;
    assert r[HEADER..HEADER + l] == frame[..l];
  }

  /** A bare header adds nothing to the list and is not cut off. */
  lemma StrayHeaderStays(lib: Lib, clean: seq<ByteString>, b: Block)
    requires CleanLog(lib, clean) && |clean| > 0 && Framable(lib, lib.encode(b))
    ensures var segs := GrowLast(clean, BareHeader(lib, b));
            && Recover(lib, segs) == Some(Recovery(segs, IndexOf(lib, clean), []))
            && LogBlocks(lib, segs) == LogBlocks(lib, clean) && IndexOf(lib, segs) == IndexOf(lib, clean)
  {
    assert HEADER < |FrameOf(lib, lib.encode(b))|;
    hide ScanFrom, Indexed, FrameOf, Framable, Recover, IndexOf, LogBlocks, CleanLog, Clean;
    var last := |clean| - 1;
    Snoc(clean);
    LogSnoc(lib, clean[..last], clean[last]);
    TornRecovers(lib, clean, b, HEADER);
    ScanTorn(lib, clean[last], b, HEADER);
    LogSnoc(lib, clean[..last], clean[last] + BareHeader(lib, b));
  }

  /** A crash that leaves a bare header: the next open replays the block behind it, and reads as it should. */
  lemma StrayHeaderOpens(lib: Lib, size: nat, d: Disk, clean: seq<ByteString>, bs: seq<Block>, b: Block)
    requires lib.Sound() && size <= MAX_RECORD
    requires Holds(lib, clean, bs) && |clean| > 0 && Admissible(lib, size, bs, b)
    requires d.segs == GrowLast(clean, BareHeader(lib, b)) && d.wal == Some(FrameOf(lib, lib.encode(b)))
    ensures LoadAll(lib, bs + [b]).Some? && LoadAll(lib, bs + [b]).value.blocks == bs + [b]
    ensures var frame := FrameOf(lib, lib.encode(b));
            OpenDisk(lib, size, d) ==
            Opens(LoadAll(lib, bs + [b]).value, Disk(AppendTo(size, d.segs, frame), None, d.tmp),
                  AppendEffects(size, d.segs, frame) + [RemoveWal])
  {
    hide FrameOf, LoadAll, Admissible, AppendTo, AppendEffects, OpenDisk, FinishOpen, Holds, BareHeader;
    StrayHeaderFinishes(lib, size, d, clean, bs, b);
    LoadedSome(lib, bs, clean);
    LoadedLedger(lib, bs);
    ReplayFinishes(lib, size, d, bs, b, []);
    LoadedLedger(lib, bs + [b]);
    var es := AppendEffects(size, d.segs, FrameOf(lib, lib.encode(b)));
    assert [] + es == es;
  }

  lemma StrayHeaderFinishes(lib: Lib, size: nat, d: Disk, clean: seq<ByteString>, bs: seq<Block>, b: Block)
    requires lib.Sound() && size <= MAX_RECORD
    requires Holds(lib, clean, bs) && |clean| > 0 && Admissible(lib, size, bs, b)
    requires d.segs == GrowLast(clean, BareHeader(lib, b))
    ensures OpenDisk(lib, size, d) == FinishOpen(lib, size, d, LoadAll(lib, bs).value, [])
  {
    FittingIsFramable(lib, size, b);
    StrayHeaderStays(lib, clean, b);
    LoadedHeights(lib, bs);
    ReadAllIsLog(lib, d.segs);
    hide FrameOf, Framable, Recover, IndexOf, LogBlocks, CleanLog, LoadAll, Loads, Fits, Normalised, MustReplay,
         ReadAllOf, FinishOpen, BareHeader;
  }

  lemma KeptStrayHeaderLoses(lib: Lib, size: nat, d: Disk, clean: seq<ByteString>, bs: seq<Block>, b: Block,
                         more: ByteString)
    requires lib.Sound() && size <= MAX_RECORD
    requires Holds(lib, clean, bs) && |clean| > 0 && Admissible(lib, size, bs, b) && HeaderMismatch(lib, b)
    requires d.wal == None
    requires d.segs == GrowLast(clean, BareHeader(lib, b) + (FrameOf(lib, lib.encode(b)) + more))
    ensures LoadAll(lib, bs).Some? && LoadAll(lib, bs).value.blocks == bs
    ensures OpenDisk(lib, size, d) ==
            Opens(LoadAll(lib, bs).value, d.(segs := clean), [Truncate(|clean| - 1, |clean[|clean| - 1]|)])
  {
    FittingIsFramable(lib, size, b);
    HoldsIsClean(lib, clean, bs);
    LoadedLedger(lib, bs);
    StrayTailRecovers(lib, d, clean, b, more);
    hide FrameOf, Framable, Recover, IndexOf, Holds, LoadAll, Loads, Admissible, Opened, OpenDisk;
    OpenVia(lib, size, d, d.(segs := clean), [Truncate(|clean| - 1, |clean[|clean| - 1]|)], bs);
  }

  lemma StrayTailRecovers(lib: Lib, d: Disk, clean: seq<ByteString>, b: Block, more: ByteString)
    requires CleanLog(lib, clean) && |clean| > 0 && Framable(lib, lib.encode(b)) && HeaderMismatch(lib, b)
    requires d.segs == GrowLast(clean, BareHeader(lib, b) + (FrameOf(lib, lib.encode(b)) + more))
    ensures Recover(lib, d.segs).Some?
    ensures Opened(lib, d) == (d.(segs := clean), IndexOf(lib, clean), [Truncate(|clean| - 1, |clean[|clean| - 1]|)])
  {
    var tail := BareHeader(lib, b) + (FrameOf(lib, lib.encode(b)) + more);
    StrayHeaderReads(lib, b, more);
    var last := |clean| - 1;
    var before, data := clean[..last], clean[last];
    Snoc(clean);
    LogSnoc(lib, before, data);
    CleanRecovers(lib, before);
    BadTail(lib, data, tail);
    hide ScanFrom, Indexed, FrameOf, Framable, Entries, Recover, IndexOf, LogBlocks, CleanLog, Clean, BareHeader,
         HeaderMismatch;
    RecoverSnoc(lib, before, data + tail);
    assert (data + tail)[..|data|] == data;
    assert [] + [Truncate(last, |data|)] == [Truncate(last, |data|)];
  }

  lemma BadTail(lib: Lib, data: ByteString, tail: ByteString)
    requires Clean(lib, data) && ReadFrame(lib, tail) == Bad
    ensures ScanFrom(lib, data + tail, 0) == Scan(Entries(lib, data), |data|, true)
  {
    hide ReadFrame;
    ScanGoesOn(lib, data, tail, 0);
    assert (data + tail)[|data|..] == tail;
    assert Entries(lib, data) + [] == Entries(lib, data);
  }

  /** A stray header in a segment that is not appended to any more does no harm. */
  lemma StrayHeaderKeeps(lib: Lib, size: nat, d: Disk, clean: seq<ByteString>, bs: seq<Block>, b: Block)
    requires lib.Sound() && size <= MAX_RECORD
    requires Holds(lib, clean, bs) && |clean| > 0 && Admissible(lib, size, bs, b)
    requires d.wal == None
    requires d.segs == GrowLast(clean, BareHeader(lib, b)) + [FrameOf(lib, lib.encode(b))]
    requires LoadAll(lib, bs + [b]).Some?
    ensures OpenDisk(lib, size, d) == Opens(LoadAll(lib, bs + [b]).value, d, [])
  {
    StrayLogRecovers(lib, size, clean, bs, b);
    LoadedHeights(lib, bs + [b]);
    ReadAllIsLog(lib, d.segs);
    NoWalFinishes(lib, size, d, LoadAll(lib, bs + [b]).value, []);
    hide FrameOf, Recover, IndexOf, LogBlocks, CleanLog, LoadAll, Admissible, ReadAllOf, FinishOpen, BareHeader;
  }

  lemma StrayLogRecovers(lib: Lib, size: nat, clean: seq<ByteString>, bs: seq<Block>, b: Block)
    requires lib.Sound() && size <= MAX_RECORD
    requires Holds(lib, clean, bs) && |clean| > 0 && Admissible(lib, size, bs, b)
    ensures var segs := GrowLast(clean, BareHeader(lib, b)) + [FrameOf(lib, lib.encode(b))];
            && Recover(lib, segs) == Some(Recovery(segs, IndexOf(lib, segs), []))
            && LogBlocks(lib, segs) == bs + [b]
  {
    FittingIsFramable(lib, size, b);
    NextLoads(lib, size, bs, b);
    hide FrameOf, Framable, Recover, IndexOf, LogBlocks, CleanLog, LoadAll, Loads, Fits, Normalised, MustReplay,
         Indexed, BareHeader, ScanFrom, Entries, Norm;
    var frame := FrameOf(lib, lib.encode(b));
    var stray := GrowLast(clean, BareHeader(lib, b));
    StrayHeaderStays(lib, clean, b);
    FrameAlone(lib, b);
    RecoverSnoc(lib, stray, frame);
    LogSnoc(lib, stray, frame);
  }

  lemma FrameAlone(lib: Lib, b: Block)
    requires lib.Sound() && Framable(lib, lib.encode(b)) && Norm(b) == b
    ensures var frame := FrameOf(lib, lib.encode(b));
            && ScanFrom(lib, frame, 0) == Scan(Entries(lib, frame), |frame|, false)
            && BlocksOf(Entries(lib, frame)) == [b]
  {
    hide FrameOf, Framable, Norm, ScanFrom, Entries, Clean;
    var frame := FrameOf(lib, lib.encode(b));
    NoFrames(lib);
    ScanAppended(lib, [], b);
    assert [] + frame == frame;
    CleanScan(lib, frame);
    assert BlocksOf([] + [Entry(0, |frame|, b)]) == [b];
  }

  lemma KeptBareHeaderCrash(lib: Lib, size: nat, d: Disk, clean: seq<ByteString>, bs: seq<Block>, b: Block)
    requires lib.Sound() && size <= MAX_RECORD
    requires Holds(lib, clean, bs) && |clean| > 0 && Admissible(lib, size, bs, b) && HeaderMismatch(lib, b)
    requires d.segs == GrowLast(clean, BareHeader(lib, b)) && d.wal == Some(FrameOf(lib, lib.encode(b)))
    ensures OpenDisk(lib, size, d).Opens? && OpenDisk(lib, size, d).ledger.blocks == bs + [b]
    ensures var again := OpenDisk(lib, size, OpenDisk(lib, size, d).disk);
            var room := |clean[|clean| - 1]| + HEADER + |FrameOf(lib, lib.encode(b))| <= size;
            again.Opens? && again.ledger.blocks == if room then bs else bs + [b]
  {
    hide FrameOf, LoadAll, Admissible, OpenDisk, Holds, BareHeader, HeaderMismatch, AppendEffects;
    var frame, last := FrameOf(lib, lib.encode(b)), clean[|clean| - 1];
    StrayHeaderOpens(lib, size, d, clean, bs, b);
    var d' := OpenDisk(lib, size, d).disk;
    if |last| + HEADER + |frame| <= size {
      assert frame + [] == frame;
      GrowTwice(clean, BareHeader(lib, b), frame);
      KeptStrayHeaderLoses(lib, size, d', clean, bs, b, []);
    } else {
      StrayHeaderKeeps(lib, size, d', clean, bs, b);
    }
  }

  /** The frame, and so header and mismatch, are those of the block as the disk keeps it. */
  lemma SameHeader(lib: Lib, b: Block)
    requires lib.encode(Norm(b)) == lib.encode(b)
    ensures BareHeader(lib, Norm(b)) == BareHeader(lib, b) && (HeaderMismatch(lib, b) ==> HeaderMismatch(lib, Norm(b)))
  {
    hide FrameOf, Stored;
  }

  /** The crash that tears an append exactly behind the frame header: the next open still finds the block, and the
      open after that finds it exactly when the replay had to start a new segment. */
  lemma BareHeaderCrash(lib: Lib, size: nat, d: Disk, clean: seq<ByteString>, bs: seq<Block>, b: Block)
    requires lib.Sound() && size <= MAX_RECORD
    requires Holds(lib, clean, NormAll(bs)) && |clean| > 0 && MayFollow(lib, size, bs, b) && HeaderMismatch(lib, b)
    requires d.segs == GrowLast(clean, BareHeader(lib, b)) && d.wal == Some(FrameOf(lib, lib.encode(b)))
    ensures OpenDisk(lib, size, d).Opens? && OpenDisk(lib, size, d).ledger.blocks == NormAll(bs + [b])
    ensures var again := OpenDisk(lib, size, OpenDisk(lib, size, d).disk);
            var room := |clean[|clean| - 1]| + HEADER + |FrameOf(lib, lib.encode(b))| <= size;
            again.Opens? && again.ledger.blocks == NormAll(if room then bs else bs + [b])
  {
    hide FrameOf, MayFollow, Admissible, OpenDisk, Holds, BareHeader, HeaderMismatch, NormAll, Norm, Lib.Sound;
    FollowsAdmissibly(lib, size, bs, b);
    SameHeader(lib, b);
    KeptBareHeaderCrash(lib, size, d, clean, NormAll(bs), Norm(b));
  }

  /** Every open of a directory with such a replayed block cuts the segment at the stray header: the block and
      whatever was appended behind it in that segment are gone. */
  lemma StrayHeaderLoses(lib: Lib, size: nat, d: Disk, clean: seq<ByteString>, bs: seq<Block>, b: Block,
                         more: ByteString)
    requires lib.Sound() && size <= MAX_RECORD
    requires Holds(lib, clean, NormAll(bs)) && |clean| > 0 && MayFollow(lib, size, bs, b) && HeaderMismatch(lib, b)
    requires d.wal == None
    requires d.segs == GrowLast(clean, BareHeader(lib, b) + (FrameOf(lib, lib.encode(b)) + more))
    ensures OpenDisk(lib, size, d).Opens? && OpenDisk(lib, size, d).ledger.blocks == NormAll(bs)
    ensures OpenDisk(lib, size, d).disk == d.(segs := clean)
    ensures OpenDisk(lib, size, d).effects == [Truncate(|clean| - 1, |clean[|clean| - 1]|)]
  {
    hide FrameOf, MayFollow, Admissible, OpenDisk, Holds, BareHeader, HeaderMismatch, NormAll, Norm, Lib.Sound,
         LoadAll;
    FollowsAdmissibly(lib, size, bs, b);
    SameHeader(lib, b);
    KeptStrayHeaderLoses(lib, size, d, clean, NormAll(bs), Norm(b), more);
  }

  /** When blocks of later heights went on in further segments, the cut leaves a gap in the heights, and the directory
      does not open any more. */
  lemma StrayHeaderBreaks(lib: Lib, size: nat, d: Disk, clean: seq<ByteString>, bs: seq<Block>, b: Block,
                          more: ByteString, later: seq<ByteString>)
    requires lib.Sound() && size <= MAX_RECORD
    requires Holds(lib, clean, NormAll(bs)) && |clean| > 0 && MayFollow(lib, size, bs, b) && HeaderMismatch(lib, b)
    requires d.segs == GrowLast(clean, BareHeader(lib, b) + (FrameOf(lib, lib.encode(b)) + more)) + later
    requires CleanLog(lib, later) && |LogBlocks(lib, later)| > 0
    requires forall i | 0 <= i < |LogBlocks(lib, later)| :: LogBlocks(lib, later)[i].header.height > b.header.height
    ensures OpenDisk(lib, size, d) == Fails
  {
    FollowsNext(lib, size, bs, b);
    HoldsIsClean(lib, clean, NormAll(bs));
    hide FrameOf, MayFollow, OpenDisk, BareHeader, HeaderMismatch, Lib.Sound, LoadAll, CleanLog, LogBlocks, Recover,
         Framable, NormAll, GrowLast;
    var first := d.(segs := GrowLast(clean, BareHeader(lib, b) + (FrameOf(lib, lib.encode(b)) + more)));
    StrayTailRecovers(lib, first, clean, b, more);
    CutRecovers(lib, first, clean, later);
    CutHasGap(lib, clean, later, bs, b.header.height);
    GapFails(lib, size, d, clean + later, b.header.height, LogBlocks(lib, later)[0].header.height);
  }

  lemma FollowsNext(lib: Lib, size: nat, bs: seq<Block>, b: Block)
    requires lib.Sound() && size <= MAX_RECORD && MayFollow(lib, size, bs, b)
    ensures Framable(lib, lib.encode(b)) && b.header.height == |bs| + 1 && InHeightOrder(bs)
  {
    FittingIsFramable(lib, size, b);
    LoadedLedger(lib, bs);
    LoadedHeights(lib, bs);
  }

  lemma CutRecovers(lib: Lib, d: Disk, clean: seq<ByteString>, later: seq<ByteString>)
    requires |clean| > 0 && CleanLog(lib, later) && Recover(lib, d.segs).Some? && |d.segs| == |clean|
    requires Opened(lib, d).0 == d.(segs := clean) && Opened(lib, d).1 == IndexOf(lib, clean)
    ensures Recover(lib, d.segs + later).Some?
    ensures var r := Recover(lib, d.segs + later).value;
            r.segs == clean + later && r.index == IndexOf(lib, clean + later)
  {
    hide Recover, IndexOf, CleanLog;
    var r := Recover(lib, d.segs).value;
    RecoveryKeepsFiles(lib, d.segs);
    RecoverJoins(lib, d.segs, clean, later, r.effects);
  }

  lemma CutHasGap(lib: Lib, clean: seq<ByteString>, later: seq<ByteString>, bs: seq<Block>, h: nat)
    requires LogBlocks(lib, clean) == NormAll(bs) && InHeightOrder(bs) && h == |bs| + 1
    requires |LogBlocks(lib, later)| > 0
    requires forall i | 0 <= i < |LogBlocks(lib, later)| :: LogBlocks(lib, later)[i].header.height > h
    ensures !Holding(LogBlocks(lib, clean + later), h)
    ensures Holding(LogBlocks(lib, clean + later), LogBlocks(lib, later)[0].header.height)
  {
    hide LogBlocks;
    LogJoins(lib, clean, later);
    HoldingMore(NormAll(bs), LogBlocks(lib, later), h);
    HoldingMore(NormAll(bs), LogBlocks(lib, later), LogBlocks(lib, later)[0].header.height);
  }

  /** A directory whose recovered log holds a height but not a lower one does not open. */
  lemma GapFails(lib: Lib, size: nat, d: Disk, segs: seq<ByteString>, low: nat, high: nat)
    requires Recover(lib, d.segs).Some? && |segs| > 0
    requires var r := Recover(lib, d.segs).value; r.segs == segs && r.index == IndexOf(lib, segs)
    requires 0 < low < high && !Holding(LogBlocks(lib, segs), low) && Holding(LogBlocks(lib, segs), high)
    ensures OpenDisk(lib, size, d) == Fails
  {
    hide Recover, IndexOf, LogBlocks, LoadAll, ReadAllOf, Holding, FinishOpen, InHeightOrder;
    GapsShow(lib, segs, low, high);
    var r := ReadAllOf(lib, segs, IndexOf(lib, segs));
    if r.Some? && LoadAll(lib, r.value).Some? { LoadedHeights(lib, r.value); }
  }

  lemma GrowTwice(segs: seq<ByteString>, x: ByteString, y: ByteString)
    requires |segs| > 0
    ensures GrowLast(GrowLast(segs, x), y) == GrowLast(segs, x + y)
  {
    var last := |segs| - 1;
    assert GrowLast(segs, x)[..last] == segs[..last];
    assert (segs[last] + x) + y == segs[last] + (x + y);
  }

  /** Where that disk comes from: a commit that does not start a segment, cut at its append. */
  lemma BareHeaderArises(lib: Lib, size: nat, d: Disk, b: Block)
    requires |d.segs| > 0 && |d.segs[|d.segs| - 1]| + |FrameOf(lib, lib.encode(b))| <= size
    ensures var frame := FrameOf(lib, lib.encode(b));
            var es := CommitEffects(size, d.segs, frame);
            && |es| == 4 && !TearsCleanly(es, 2, HEADER)
            && Crashed(d, es, 2, HEADER) == Disk(GrowLast(d.segs, BareHeader(lib, b)), Some(frame), None)
  {
    var frame := FrameOf(lib, lib.encode(b));
    assert |frame| >= HEADER;
    hide FrameOf;
    var es := CommitEffects(size, d.segs, frame);
    assert es[..2] == [WriteTmp(frame), RenameTmp];
    PerformTwo(d, WriteTmp(frame), RenameTmp);
  }

  // ----- blocks longer than a segment -----

  /** The write-ahead log is written before the size is checked, so a commit that is refused as too long leaves a
      directory that cannot be opened: after the rename, the next open succeeds exactly when the frame fits. */
  lemma OpensExactlyWhenItFits(lib: Lib, size: nat, d: Disk, bs: seq<Block>, b: Block)
    requires lib.Sound() && size <= MAX_RECORD && |Stored(lib, lib.encode(b))| < TWO_TO_THE_32
    requires Holds(lib, d.segs, bs) && Loads(lib, LoadAll(lib, bs).value, b) && ValuesKept(b) && MustReplay(bs, b)
    requires d.wal == Some(FrameOf(lib, lib.encode(b)))
    ensures OpenDisk(lib, size, d).Opens? <==> Fits(lib, size, b)
  {
    var d1 := if |d.segs| == 0 then d.(segs := [[]]) else d;
    var es := if |d.segs| == 0 then [CreateSegment] else [];
    CleanOpened(lib, d, bs);
    OpenVia(lib, size, d, d1, es, bs);
    hide LoadAll, OpenDisk, Holds, Loads, ValuesKept, FrameOf, MustReplay, FinishOpen, Recover, Opened, IndexOf,
         PerformAll;
    FinishesExactly(lib, size, d1, LoadAll(lib, bs).value, b, es);
  }

  lemma FinishesExactly(lib: Lib, size: nat, d1: Disk, c: Ledger, b: Block, es: seq<Effect>)
    requires lib.Sound() && size <= MAX_RECORD && |Stored(lib, lib.encode(b))| < TWO_TO_THE_32
    requires |d1.segs| > 0 && Loads(lib, c, b) && ValuesKept(b) && MustReplay(c.blocks, b)
    requires d1.wal == Some(FrameOf(lib, lib.encode(b)))
    ensures FinishOpen(lib, size, d1, c, es).Opens? <==> Fits(lib, size, b)
  {
    hide FrameOf, Loads, ValuesKept, AppendTo, AppendEffects, Lib.Sound, WalOf, LastHash, Norm, Stored;
    KeptLoads(lib, c, b);
    SameEncoding(lib, b);
    WalReadsExactly(lib, b);
    if Fits(lib, size, b) { FittingIsShort(lib, size, b); }
  }

  lemma FittingIsShort(lib: Lib, size: nat, b: Block)
    requires size <= MAX_RECORD && Fits(lib, size, b)
    ensures |Stored(lib, lib.encode(b))| <= MAX_RECORD
  {}

  // ----- empty values -----

  /** A closed store whose log holds what the disk kept of a chain opens again exactly when no value of the chain is
      an empty slice that is not nil, and then to the state, versions and counters of the chain. */
  lemma ReopensExactlyWhenKept(lib: Lib, size: nat, d: Disk, bs: seq<Block>)
    requires CleanLog(lib, d.segs) && |d.segs| > 0 && LogBlocks(lib, d.segs) == NormAll(bs) && d.wal == None
    requires lib.Sound() && LoadAll(lib, bs).Some?
    requires var among := Among(bs) + Among(NormAll(bs));
             CollisionFree(lib.hash, HashedBlocks(lib, among)) && JsonApart(lib, among)
    ensures OpenDisk(lib, size, d).Opens? <==> AllKept(bs)
    ensures AllKept(bs) ==> OpenDisk(lib, size, d).ledger == LoadAll(lib, bs).value.(blocks := NormAll(bs))
  {
    ReloadsExactlyWhenKept(lib, bs);
    LoadedHeights(lib, bs);
    NormKeepsHeights(bs);
    hide LoadAll, CleanLog, LogBlocks, AllKept, NormAll, OpenDisk, JsonApart, CollisionFree, HashedBlocks,
         InHeightOrder, Lib.Sound;
    OpensWhenItLoads(lib, size, d, NormAll(bs));
  }

  lemma NormKeepsHeights(bs: seq<Block>)
    requires InHeightOrder(bs)
    ensures InHeightOrder(NormAll(bs))
  {}

  lemma OpensWhenItLoads(lib: Lib, size: nat, d: Disk, bs: seq<Block>)
    requires CleanLog(lib, d.segs) && |d.segs| > 0 && LogBlocks(lib, d.segs) == bs && d.wal == None
    requires InHeightOrder(bs)
    ensures OpenDisk(lib, size, d).Opens? <==> LoadAll(lib, bs).Some?
    ensures LoadAll(lib, bs).Some? ==> OpenDisk(lib, size, d).ledger == LoadAll(lib, bs).value
  {
    hide LoadAll, CleanLog, LogBlocks, Recover, ReadAllOf, IndexOf, FinishOpen, InHeightOrder;
    CleanRecovers(lib, d.segs);
    ReadAllIsLog(lib, d.segs);
    if LoadAll(lib, bs).Some? { NoWalFinishes(lib, size, d, LoadAll(lib, bs).value, []); }
  }

  lemma NoWalFinishes(lib: Lib, size: nat, d: Disk, c: Ledger, es: seq<Effect>)
    requires d.wal == None && |d.segs| > 0
    ensures FinishOpen(lib, size, d, c, es) == Opens(c, d, es)
  {}

  /** Commit keeps such a value: on any chain, writing an empty slice to a key that the state does not hold builds a
      block that the disk will not keep. */
  lemma EmptyValueIsCommitted(lib: Lib, c: Ledger, key: ByteString, id: ByteString, now: int)
    requires key != [] && id != [] && key !in c.state
    ensures var tx := Transaction(id, now, [], 0, [Operation(key, Bytes([]), false)], Nil, []);
            var o := Decide(lib, c, [tx], now);
            o.Built? && !ValuesKept(o.block)
  {
    hide FilterTxs, BuildBlock, KeptOps, FlatOps, ValuesKept, StateRootOf, Loads, ApplyOps, Applied;
    var op := Operation(key, Bytes([]), false);
    var tx := Transaction(id, now, [], 0, [op], Nil, []);
    OneTx(tx);
    NewKeyIsKept(c.state, op);
    KeptAlone(c.state, tx, op);
    BuiltLoads(lib, c, [tx], now);
    EmptyValueShows(Decide(lib, c, [tx], now).block, op);
  }

  lemma OneTx(tx: Transaction)
    ensures FlatOps([tx]) == tx.ops
  {
    FlatSnoc([], tx);
    assert [] + [tx] == [tx] && [] + tx.ops == tx.ops;
  }

  lemma NewKeyIsKept(s: State, op: Operation)
    requires op.key !in s && !op.delete
    ensures KeptOps(s, [op]) == [op]
  {
    assert [op][..0] == [] && [] + [op] == [op];
  }

  /** A valid transaction of one operation that is kept passes the filter. */
  lemma KeptAlone(s: State, tx: Transaction, op: Operation)
    requires tx.id != [] && op.key != [] && tx.ops == [op] && FlatOps([tx]) == [op] && KeptOps(s, [op]) == [op]
    ensures FilterTxs(s, [tx]).Kept? && |FilterTxs(s, [tx]).txs| > 0 && op in FlatOps(FilterTxs(s, [tx]).txs)
  {
    hide FilterTxs, KeptOps, FlatOps, ApplyOps;
    RefusedWhenInvalid(s, [tx]);
    FilterFlattens(s, [tx]);
    NoEmptyTx(FilterTxs(s, [tx]).txs);
    assert op in [op];
  }

  lemma EmptyValueShows(b: Block, op: Operation)
    requires op in FlatOps(b.txs) && op.value == Bytes([])
    ensures !ValuesKept(b)
  {
    FlatHasOrigin(b.txs, op);
  }

  lemma {:induction false} FlatHasOrigin(txs: seq<Transaction>, op: Operation)
    requires op in FlatOps(txs)
    ensures exists tx :: tx in txs && op in tx.ops
    decreases |txs|
  {
    if op in FlatOps(txs[..|txs| - 1]) {
      FlatHasOrigin(txs[..|txs| - 1], op);
    } else {
      assert txs[|txs| - 1] in txs;
    }
  }
}
