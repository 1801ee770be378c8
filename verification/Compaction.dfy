/** Compaction: writing every block into fresh segments. */
module Compaction {
  import opened ByteStrings
  import opened Lists
  import opened Options
  import opened Model
  import opened Chain
  import opened Frames
  import opened Log
  import opened Store
  import opened Opening
  import opened Engines
  import opened CrashSafety

  // ----- compaction -----

  /** Appends every block to a fresh store, starting new segments where needed. */
  method WriteFresh(lib: Lib, size: nat, bs: seq<Block>) returns (segs: seq<ByteString>, ok: bool)
    requires lib.Sound() && size <= MAX_RECORD
    ensures ok <==> forall i | 0 <= i < |bs| :: Fits(lib, size, bs[i])
    ensures ok ==> CleanLog(lib, segs) && |segs| > 0 && Bounded(size, segs) && LogBlocks(lib, segs) == NormAll(bs)
  {
    hide CleanLog, LogBlocks, IndexOf, Fits, FrameOf, AppendTo, AppendEffects, Bounded, NormAll;
    var st := OpenFresh(lib, size);
    NothingToKeep(bs);
    for i := 0 to |bs|
      invariant fresh(st) && st.lib == lib && st.segmentSize == size && st.Valid() && Bounded(size, st.disk.segs)
      invariant LogBlocks(lib, st.disk.segs) == NormAll(bs[..i])
      invariant forall j | 0 <= j < i :: Fits(lib, size, bs[j])
    {
      TakeMore(bs, i);
      NormSnoc(bs[..i], bs[i]);
      ok := st.AppendBlock(bs[i]);
      if !ok { return [], false; }
    }
    segs, ok := st.disk.segs, true;
  }

  lemma NothingToKeep(bs: seq<Block>)
    ensures NormAll(bs[..0]) == [] && bs[..|bs|] == bs
  {}

  method OpenFresh(lib: Lib, size: nat) returns (st: Files)
    requires lib.Sound() && size <= MAX_RECORD
    ensures fresh(st) && st.lib == lib && st.segmentSize == size && st.Valid()
    ensures Bounded(size, st.disk.segs) && LogBlocks(lib, st.disk.segs) == []
  {
    hide CleanLog, LogBlocks, IndexOf, Recover;
    FreshStore(lib);
    var found;
    st, found := Files.Open(lib, size, BLANK);
  }

  /** An empty directory opens to one empty segment. */
  lemma FreshStore(lib: Lib)
    ensures Recover(lib, []).Some? && Opened(lib, BLANK) == (Disk([[]], None, None), map[], [CreateSegment])
    ensures CleanLog(lib, [[]]) && LogBlocks(lib, [[]]) == [] && IndexOf(lib, [[]]) == map[]
  {
    NoFrames(lib);
    LogSnoc(lib, [], []);
    var first: seq<ByteString> := [[]];
    assert [] + first == first;
    assert [] + [CreateSegment] == [CreateSegment];
    assert BlocksOf([]) == [];
  }

  /** A compaction that completes keeps the database: opening the compacted directory gives the same blocks, state,
      versions and counters without any further step, from clean segments no longer than the limit. It completes
      whenever the directory opens and every block fits a segment. */
  method Compact(lib: Lib, size: nat, d: Disk) returns (r: Option<Disk>)
    requires lib.Sound() && size <= MAX_RECORD
    ensures var o := OpenDisk(lib, size, d);
            && (r.Some? <==> o.Opens? && forall i | 0 <= i < |o.ledger.blocks| :: Fits(lib, size, o.ledger.blocks[i]))
            && (r.Some? ==>
                  && OpenDisk(lib, size, r.value) == Opens(o.ledger, r.value, [])
                  && CleanLog(lib, r.value.segs) && Bounded(size, r.value.segs)
                  && LogBlocks(lib, r.value.segs) == o.ledger.blocks)
  {
    hide Recover, ReadAllOf, FinishOpen, LoadAll, CleanLog, LogBlocks, Fits, FrameOf, OpenDisk, Bounded, NormAll,
         AllNormalised;
    var e, ok := Engine.Open(lib, size, d);
    if !ok { return None; }
    ok := e.Verify();
    if !ok { return None; }
    OpenedIsNormalised(lib, size, d);
    var segs;
    segs, ok := WriteFresh(lib, size, e.blocks);
    if !ok { return None; }
    FreshOpens(lib, size, e.Chained(), segs, None);
    FreshOpens(lib, size, e.Chained(), segs, e.store.disk.tmp);
    var check;
    check, ok := Engine.Open(lib, size, Disk(segs, None, None));
    if !ok { return None; }
    ok := check.Verify();
    if !ok { return None; }
    r := Some(Disk(segs, e.store.disk.wal, e.store.disk.tmp));
  }

  lemma FreshOpens(lib: Lib, size: nat, c: Ledger, segs: seq<ByteString>, tmp: Option<ByteString>)
    requires LoadAll(lib, c.blocks) == Some(c) && AllNormalised(c.blocks)
    requires CleanLog(lib, segs) && |segs| > 0 && LogBlocks(lib, segs) == NormAll(c.blocks)
    ensures NormAll(c.blocks) == c.blocks
    ensures OpenDisk(lib, size, Disk(segs, None, tmp)) == Opens(c, Disk(segs, None, tmp), [])
  {
    var d := Disk(segs, None, tmp);
    assert forall b | b in c.blocks :: Normalised(b);
    NormalisedStay(c.blocks);
    CleanOpened(lib, d, c.blocks);
    hide Recover, Opened, IndexOf, LoadAll, OpenDisk, CleanLog, LogBlocks, Normalised, AllNormalised, PerformAll,
         NormAll;
    OpenVia(lib, size, d, d, [], c.blocks);
  }
}
