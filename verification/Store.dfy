/** The open store: its durable files and the fields kept beside them, updated in place. */
module Store {
  import opened ByteStrings
  import opened Lists
  import opened Options
  import opened Sorting
  import opened Model
  import opened Frames
  import opened Log

  datatype Verdict = Whole | Torn | Undecodable

  /** The index of a store opened on clean segments is theirs. */
  lemma OpenedIndex(lib: Lib, d: Disk)
    requires Recover(lib, d.segs).Some? && CleanLog(lib, Opened(lib, d).0.segs)
    ensures Opened(lib, d).1 == IndexOf(lib, Opened(lib, d).0.segs)
  {
    hide CleanLog, Indexed, Entries;
    var r := Recover(lib, d.segs).value;
    RecoveryKeepsFiles(lib, d.segs);
    if |r.segs| == 0 {
      NoFrames(lib);
      NothingIndexed(map[], 1);
      var first: seq<ByteString> := [[]];
      assert first[..0] == [];
    } else {
      RecoveryIsIdempotent(lib, d.segs);
      CleanRecovers(lib, r.segs);
    }
  }

  /** Changing file i when the files before it are done and those behind it untouched. */
  lemma TruncateMiddle(done: seq<ByteString>, segs: seq<ByteString>, i: nat)
    requires |done| == i < |segs|
    ensures (done + segs[i..])[i] == segs[i]
    ensures forall x :: (done + segs[i..])[i := x] == done + [x] + segs[i + 1..]
    ensures done + segs[i..] == done + [segs[i]] + segs[i + 1..]
  {}

  class Files {
    const lib: Lib
    const segmentSize: nat
    /** The files on disk, and every step taken on them so far. */
    var disk: Disk
    ghost var effects: seq<Effect>
    var index: Index
    var activeID: nat
    var activeSize: nat

    /** The log has no torn tail, and the fields beside it are what recovering it would give. */
    ghost predicate Valid()
      reads this
    {
      && lib.Sound() && segmentSize <= MAX_RECORD
      && CleanLog(lib, disk.segs)
      && Ready()
      && index == IndexOf(lib, disk.segs)
    }

    ghost predicate Ready()
      reads this
    {
      |disk.segs| > 0 && activeID == |disk.segs| && activeSize == |disk.segs[activeID - 1]|
    }

    constructor (lib: Lib, segmentSize: nat, disk: Disk)
      ensures this.lib == lib && this.segmentSize == segmentSize && this.disk == disk
      ensures effects == [] && index == map[] && activeID == 0
    {
      this.lib, this.segmentSize, this.disk := lib, segmentSize, disk;
      effects, index, activeID, activeSize := [], map[], 0, 0;
    }

    method Do(e: Effect)
      modifies this`disk, this`effects
      ensures disk == Perform(old(disk), e) && effects == old(effects) + [e]
    {
      disk := Perform(disk, e);
      effects := effects + [e];
    }

    /** The inner loop of recoverSegments: index the frames of one file up to the first that does not read. */
    method ScanSegment(i: nat) returns (off: nat, verdict: Verdict)
      requires i < |disk.segs|
      modifies this`index
      ensures match ScanFrom(lib, disk.segs[i], 0)
              case Unreadable => verdict == Undecodable
              case Scan(es, end, cut) =>
                off == end && verdict == (if cut then Torn else Whole) && index == Indexed(old(index), i + 1, es)
    {
      hide ReadFrame, ScanFrom, Indexed;
      var data := disk.segs[i];
      off := 0;
      ghost var done := [];
      NothingIndexed(index, i + 1);
      PrependNothing(ScanFrom(lib, data, 0));
      while true
        invariant off <= |data|
        invariant ScanFrom(lib, data, 0) == Prepend(done, ScanFrom(lib, data, off))
        invariant index == Indexed(old(index), i + 1, done)
        decreases |data| - off
      {
        match ReadFrame(lib, data[off..])
        case Eof =>
          ScanStop(lib, data, off);
          PrependEnd(done, off, false);
          return off, Whole;
        case Bad =>
          ScanStop(lib, data, off);
          PrependEnd(done, off, true);
          return off, Torn;
        case Got(p, n) =>
          match lib.decode(p) {
            case None =>
              ScanFails(lib, data, off);
              return off, Undecodable;
            case Some(b) =>
              ScanStep(lib, data, off, p, n, b);
              PrependTwice(done, [Entry(off, n, b)], ScanFrom(lib, data, off + n));
              RecordOne(old(index), i + 1, done, Entry(off, n, b));
              index := index[b.header.height := Location(i + 1, off, n)];
              done := done + [Entry(off, n, b)];
              off := off + n;
          }
      }
    }

    /** One turn of recoverSegments: scan file i, and cut off its torn tail. */
    method RecoverSegment(i: nat) returns (ok: bool)
      requires i < |disk.segs|
      modifies this`index, this`disk, this`effects
      ensures match ScanFrom(lib, old(disk.segs[i]), 0)
              case Unreadable => !ok
              case Scan(es, end, cut) =>
                && ok && index == Indexed(old(index), i + 1, es)
                && disk == (if cut then Perform(old(disk), Truncate(i, end)) else old(disk))
                && effects == old(effects) + (if cut then [Truncate(i, end)] else [])
    {
      hide ScanFrom, Indexed, Perform;
      var off, verdict := ScanSegment(i);
      if verdict == Torn {
        Do(Truncate(i, off));
      } else {
        assert effects + [] == effects;
      }
      ok := verdict != Undecodable;
    }

    method RecoverSegments() returns (ok: bool)
      requires index == map[] && activeID == 0
      modifies this
      ensures ok <==> Recover(lib, old(disk.segs)).Some?
      ensures ok ==> var r := Recover(lib, old(disk.segs)).value;
                     && disk == old(disk).(segs := r.segs) && index == r.index
                     && effects == old(effects) + r.effects && activeID == |r.segs|
    {
      hide ScanFrom, Indexed;
      ghost var segs := disk.segs;
      ghost var r := Recovery([], map[], []);
      var n := |disk.segs|;
      assert segs[..0] == [];
      assert effects + [] == effects;
      for i := 0 to n
        invariant |segs| == n && Recover(lib, segs[..i]) == Some(r) && |r.segs| == i
        invariant disk == old(disk).(segs := r.segs + segs[i..])
        invariant index == r.index && effects == old(effects) + r.effects && activeID == i
      {
        assert disk.segs[i] == segs[i];
        var found := RecoverSegment(i);
        if !found {
          UndecodableSticks(lib, segs, i);
          return false;
        }
        RecoverSnoc(lib, segs[..i], segs[i]);
        TakeMore(segs, i);
        TruncateMiddle(r.segs, segs, i);
        r := Recover(lib, segs[..i + 1]).value;
        activeID := i + 1;
      }
      assert segs[..n] == segs;
      ok := true;
    }

    method OpenActive()
      requires activeID == |disk.segs| || activeID == |disk.segs| + 1
      modifies this
      ensures index == old(index)
      ensures Ready()
      ensures var fresh_ := |old(disk.segs)| == 0 || old(activeID) > |old(disk.segs)|;
              && disk == (if fresh_ then Perform(old(disk), CreateSegment) else old(disk))
              && effects == old(effects) + (if fresh_ then [CreateSegment] else [])
    {
      if activeID == 0 { activeID := 1; }
      if activeID > |disk.segs| {
        Do(CreateSegment);
      } else {
        assert effects + [] == effects;
      }
      activeSize := |disk.segs[activeID - 1]|;
    }

    /** Opens the files: recovery, then the active segment, created when there is none. */
    static method Open(lib: Lib, segmentSize: nat, disk: Disk) returns (f: Files, ok: bool)
      ensures fresh(f) && f.lib == lib && f.segmentSize == segmentSize
      ensures ok <==> Recover(lib, disk.segs).Some?
      ensures ok ==> f.Ready() && Opened(lib, disk) == (f.disk, f.index, f.effects)
      ensures ok && lib.Sound() && segmentSize <= MAX_RECORD && CleanLog(lib, f.disk.segs) ==> f.Valid()
    {
      hide Recover, CleanLog, IndexOf;
      f := new Files(lib, segmentSize, disk);
      ok := f.RecoverSegments();
      if ok {
        ghost var r := Recover(lib, disk.segs).value;
        assert [] + r.effects == r.effects;
        f.OpenActive();
        assert |r.segs| == 0 ==> f.disk.segs == [[]];
        assert r.effects + [] == r.effects;
        if CleanLog(lib, f.disk.segs) { OpenedIndex(lib, disk); }
      }
    }

    method Rotate()
      requires Ready()
      modifies this
      ensures Ready() && index == old(index)
      ensures disk == Perform(old(disk), CreateSegment) && effects == old(effects) + [CreateSegment]
    {
      activeID := activeID + 1;
      OpenActive();
    }

    /** The steps of AppendBlock for a frame that is not longer than a segment. */
    method AppendFrame(fr: ByteString, height: nat)
      requires Ready()
      modifies this
      ensures Ready()
      ensures disk == old(disk).(segs := AppendTo(segmentSize, old(disk.segs), fr))
      ensures effects == old(effects) + AppendEffects(segmentSize, old(disk.segs), fr)
      ensures index == old(index)[height := Location(activeID, activeSize - |fr|, |fr|)]
    {
      ghost var segs := disk.segs;
      if activeSize + |fr| > segmentSize {
        Rotate();
        assert disk.segs[..|segs|] == segs;
        assert [] + fr == fr;
      }
      var off := activeSize;
      Do(Append(fr));
      activeSize := activeSize + |fr|;
      index := index[height := Location(activeID, off, |fr|)];
    }

    /** Refuses a frame longer than a segment; otherwise appends it whole to one segment, starting a new one
        when it would not fit. */
    method AppendBlock(b: Block) returns (ok: bool)
      requires Ready()
      modifies this
      ensures Ready() && (ok <==> Fits(lib, segmentSize, b))
      ensures ok <==> |FrameOf(lib, lib.encode(b))| <= segmentSize
      ensures ok ==>
                |disk.segs| == |old(disk.segs)| +
                if |old(disk.segs[activeID - 1])| + |FrameOf(lib, lib.encode(b))| > segmentSize then 1 else 0
      ensures !ok ==> disk == old(disk) && effects == old(effects) && index == old(index)
      ensures ok ==>
                var frame := FrameOf(lib, lib.encode(b));
                && disk == old(disk).(segs := AppendTo(segmentSize, old(disk.segs), frame))
                && effects == old(effects) + AppendEffects(segmentSize, old(disk.segs), frame)
                && index == old(index)[b.header.height := Location(activeID, activeSize - |frame|, |frame|)]
      ensures ok && old(Valid()) ==>
                && Valid() && LogBlocks(lib, disk.segs) == LogBlocks(lib, old(disk.segs)) + [Norm(b)]
                && (Bounded(segmentSize, old(disk.segs)) ==> Bounded(segmentSize, disk.segs))
    {
      hide FrameOf, CleanLog, LogBlocks, IndexOf, AppendTo, AppendEffects;
      var fr := Frame(lib, lib.encode(b));
      if |fr| > segmentSize { return false; }
      ghost var segs := disk.segs;
      AppendStarts(segmentSize, segs, fr);
      AppendFrame(fr, b.header.height);
      ok := true;
      if old(Valid()) {
        FittingIsFramable(lib, segmentSize, b);
        AppendRefinesList(lib, segmentSize, segs, b);
      }
    }

    /** The block at an indexed place; for a log without torn tails, the one of that height in its list. */
    method ReadBlock(h: nat) returns (b: Option<Block>)
      ensures b == if h in index then ReadAt(lib, disk.segs, index[h]) else None
      ensures Valid() && InHeightOrder(LogBlocks(lib, disk.segs)) ==>
                b == if 1 <= h <= |LogBlocks(lib, disk.segs)| then Some(LogBlocks(lib, disk.segs)[h - 1]) else None
    {
      hide ReadAt, CleanLog, LogBlocks, IndexOf, InHeightOrder;
      if Valid() && InHeightOrder(LogBlocks(lib, disk.segs)) { IndexFinds(lib, disk.segs); }
      if h !in index { return None; }
      b := ReadAt(lib, disk.segs, index[h]);
    }

    method Heights() returns (hs: seq<nat>)
      ensures hs == InOrder(index.Keys, NotAbove)
    {
      hs := [];
      var todo := index.Keys;
      while todo != {}
        invariant todo <= index.Keys
        invariant multiset(hs) == multiset(index.Keys - todo)
      {
        var h :| h in todo;
        assert index.Keys - (todo - {h}) == (index.Keys - todo) + {h};
        hs := hs + [h];
        todo := todo - {h};
      }
      assert index.Keys - todo == index.Keys;
      SortedEnumeration(hs, index.Keys, NotAbove);
      hs := Sort(hs, NotAbove);
    }

    /** Every indexed block in height order; for a log without torn tails, its list of blocks. */
    method ReadAll() returns (r: Option<seq<Block>>)
      ensures r == ReadAllOf(lib, disk.segs, index)
      ensures Valid() && InHeightOrder(LogBlocks(lib, disk.segs)) ==> r == Some(LogBlocks(lib, disk.segs))
    {
      hide ReadAt, CleanLog, LogBlocks, IndexOf, InHeightOrder;
      if Valid() && InHeightOrder(LogBlocks(lib, disk.segs)) { ReadAllIsLog(lib, disk.segs); }
      var hs := Heights();
      var out := [];
      for i := 0 to |hs|
        invariant ReadHeights(lib, disk.segs, index, hs[..i]) == Some(out)
      {
        TakeMore(hs, i);
        var b := ReadBlock(hs[i]);
        if b.None? {
          MissingSticks(lib, disk.segs, index, hs, i);
          return None;
        }
        out := out + [b.value];
      }
      assert hs[..|hs|] == hs;
      r := Some(out);
    }

    method WriteWAL(b: Block)
      modifies this`disk, this`effects
      ensures var frame := FrameOf(lib, lib.encode(b));
              && disk == old(disk).(wal := Some(frame), tmp := None)
              && effects == old(effects) + [WriteTmp(frame), RenameTmp]
    {
      var fr := Frame(lib, lib.encode(b));
      Do(WriteTmp(fr));
      Do(RenameTmp);
    }

    /** Reads the whole frame of a block back as the disk keeps the block, and refuses one cut short. */
    method ReadWAL() returns (r: WalRead)
      ensures r == WalOf(lib, disk.wal) && (r.NoWal? <==> disk.wal == None)
      ensures forall b | lib.Sound() && Framable(lib, lib.encode(b)) && disk.wal == Some(FrameOf(lib, lib.encode(b))) ::
                r == Wal(Norm(b))
      ensures forall b, t: nat | Framable(lib, lib.encode(b)) && t < |FrameOf(lib, lib.encode(b))|
                              && disk.wal == Some(FrameOf(lib, lib.encode(b))[..t]) :: r == BadWal
    {
      hide ReadFrame, FrameOf, Framable;
      r := WalOf(lib, disk.wal);
      forall b | lib.Sound() && Framable(lib, lib.encode(b)) && disk.wal == Some(FrameOf(lib, lib.encode(b)))
        ensures r == Wal(Norm(b))
      {
        WalReadsBack(lib, b);
      }
      forall b, t: nat | Framable(lib, lib.encode(b)) && t < |FrameOf(lib, lib.encode(b))|
                       && disk.wal == Some(FrameOf(lib, lib.encode(b))[..t])
        ensures r == BadWal
      {
        TornFrameReads(lib, lib.encode(b), t);
      }
    }

    method ClearWAL()
      modifies this`disk, this`effects
      ensures disk == old(disk).(wal := None) && effects == old(effects) + [RemoveWal]
    {
      Do(RemoveWal);
    }
  }
}
