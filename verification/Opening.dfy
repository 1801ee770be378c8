/** What opening a directory yields, and the durable steps of opening and of committing. */
module Opening {
  import opened ByteStrings
  import opened Options
  import opened Sorting
  import opened Model
  import opened Writes
  import opened Chain
  import opened Frames
  import opened Log

  function CommitEffects(size: nat, segs: seq<ByteString>, frame: ByteString): seq<Effect>
    requires |segs| > 0
  {
    [WriteTmp(frame), RenameTmp] + AppendEffects(size, segs, frame) + [RemoveWal]
  }

  datatype Result = Fails | Opens(ledger: Ledger, disk: Disk, effects: seq<Effect>)

  /** The block of the write-ahead log is replayed unless it is already the last one. */
  predicate MustReplay(bs: seq<Block>, w: Block) {
    |bs| == 0 || LastHash(bs) != w.header.recordHash
  }

  /** The end of Open: replay or drop the write-ahead log. */
  ghost function FinishOpen(lib: Lib, size: nat, d: Disk, c: Ledger, es: seq<Effect>): Result
    requires |d.segs| > 0
  {
    match WalOf(lib, d.wal)
    case NoWal => Opens(c, d, es)
    case BadWal => Fails
    case Wal(w) =>
      if !MustReplay(c.blocks, w) then Opens(c, d.(wal := None), es + [RemoveWal])
      else if !Fits(lib, size, w) || !Loads(lib, c, w) then Fails
      else
        var frame := FrameOf(lib, lib.encode(w));
        Opens(Applied(c, w), d.(segs := AppendTo(size, d.segs, frame), wal := None),
              es + AppendEffects(size, d.segs, frame) + [RemoveWal])
  }

  /** Open: recover the segments, read and replay every block, then see to the write-ahead log. */
  ghost function OpenDisk(lib: Lib, size: nat, d: Disk): Result {
    if Recover(lib, d.segs).None? then Fails
    else
      var (d1, index, es) := Opened(lib, d);
      match ReadAllOf(lib, d1.segs, index)
      case None => Fails
      case Some(bs) =>
        match LoadAll(lib, bs)
        case None => Fails
        case Some(c) => FinishOpen(lib, size, d1, c, es)
  }

  // ----- opened blocks are as the disk keeps them -----

  ghost predicate AllNormalised(bs: seq<Block>) {
    forall i | 0 <= i < |bs| :: Normalised(bs[i])
  }

  lemma {:induction false} ReadsAreNormalised(lib: Lib, segs: seq<ByteString>, index: Index, hs: seq<nat>)
    requires lib.Sound() && ReadHeights(lib, segs, index, hs).Some?
    ensures AllNormalised(ReadHeights(lib, segs, index, hs).value)
    decreases |hs|
  {
    hide Normalised, ReadFrame;
    if |hs| > 0 { ReadsAreNormalised(lib, segs, index, hs[..|hs| - 1]); }
  }

  /** What opening yields holds no empty value that is not nil, and leaves no write-ahead log. */
  lemma OpenedIsNormalised(lib: Lib, size: nat, d: Disk)
    requires lib.Sound() && OpenDisk(lib, size, d).Opens?
    ensures var r := OpenDisk(lib, size, d);
            && LoadAll(lib, r.ledger.blocks) == Some(r.ledger)
            && AllNormalised(r.ledger.blocks)
            && r.disk.wal == None
  {
    var (d1, index, es) := Opened(lib, d);
    var bs := ReadAllOf(lib, d1.segs, index).value;
    var c := LoadAll(lib, bs).value;
    ReadsAreNormalised(lib, d1.segs, index, InOrder(index.Keys, NotAbove));
    LoadedLedger(lib, bs);
    hide LoadAll, Normalised, Recover, FinishOpen;
    assert ReadAllOf(lib, d1.segs, index) == Some(bs) && LoadAll(lib, bs) == Some(c);
    assert OpenDisk(lib, size, d) == FinishOpen(lib, size, d1, c, es);
    FinishedIsNormalised(lib, size, d1, c, es);
  }

  lemma FinishedIsNormalised(lib: Lib, size: nat, d1: Disk, c: Ledger, es: seq<Effect>)
    requires lib.Sound() && |d1.segs| > 0 && FinishOpen(lib, size, d1, c, es).Opens?
    requires LoadAll(lib, c.blocks) == Some(c) && AllNormalised(c.blocks)
    ensures var r := FinishOpen(lib, size, d1, c, es);
            && LoadAll(lib, r.ledger.blocks) == Some(r.ledger)
            && AllNormalised(r.ledger.blocks)
            && r.disk.wal == None
  {
    hide LoadAll, Loads, Normalised, AllNormalised, Fits, AppendTo, AppendEffects, FrameOf, WalOf, Applied,
         MustReplay, Lib.Sound;
    WalIsNormalised(lib, d1.wal);
    var w := WalOf(lib, d1.wal);
    if w.Wal? && Loads(lib, c, w.block) { OneMoreNormalised(lib, c, w.block); }
  }

  lemma OneMoreNormalised(lib: Lib, c: Ledger, b: Block)
    requires LoadAll(lib, c.blocks) == Some(c) && AllNormalised(c.blocks)
    requires Loads(lib, c, b) && Normalised(b)
    ensures LoadAll(lib, Applied(c, b).blocks) == Some(Applied(c, b)) && AllNormalised(Applied(c, b).blocks)
  {
    hide LoadAll, Loads, Normalised, ApplyOps, Recorded;
    LoadSnoc(lib, c.blocks, b);
  }

  lemma WalIsNormalised(lib: Lib, wal: Option<ByteString>)
    requires lib.Sound()
    ensures WalOf(lib, wal).Wal? ==> Normalised(WalOf(lib, wal).block)
    ensures WalOf(lib, wal).NoWal? ==> wal == None
  {
    hide ReadFrame, Normalised;
  }
}
