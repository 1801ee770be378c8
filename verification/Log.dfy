/** The durable files as a value: the segmented log, its index and its recovery, and the write-ahead log. */
module Log {
  import opened ByteStrings
  import opened Lists
  import opened Options
  import opened Sorting
  import opened Model
  import opened Frames

  // ----- durable steps -----

  /** Segment files 1, 2, ... in order, the write-ahead log and its temporary file. */
  datatype Disk = Disk(segs: seq<ByteString>, wal: Option<ByteString>, tmp: Option<ByteString>)

  const BLANK := Disk([], None, None)

  datatype Effect = WriteTmp(bytes: ByteString) | RenameTmp | RemoveWal
                  | CreateSegment | Append(bytes: ByteString) | Truncate(index: nat, size: nat)

  function GrowLast(segs: seq<ByteString>, bytes: ByteString): (r: seq<ByteString>)
    requires |segs| > 0
    ensures |r| == |segs|
  {
    segs[..|segs| - 1] + [segs[|segs| - 1] + bytes]
  }

  function Perform(d: Disk, e: Effect): Disk {
    match e
    case WriteTmp(bytes) => d.(tmp := Some(bytes))
    case RenameTmp => d.(wal := d.tmp, tmp := None)
    case RemoveWal => d.(wal := None)
    case CreateSegment => d.(segs := d.segs + [[]])
    case Append(bytes) => if |d.segs| == 0 then d else d.(segs := GrowLast(d.segs, bytes))
    case Truncate(i, n) => if i < |d.segs| && n <= |d.segs[i]| then d.(segs := d.segs[i := d.segs[i][..n]]) else d
  }

  function PerformAll(d: Disk, es: seq<Effect>): Disk
    decreases |es|
  {
    if |es| == 0 then d else Perform(PerformAll(d, es[..|es| - 1]), es[|es| - 1])
  }

  lemma {:induction false} PerformSplit(d: Disk, es: seq<Effect>, fs: seq<Effect>)
    ensures PerformAll(d, es + fs) == PerformAll(PerformAll(d, es), fs)
    decreases |fs|
  {
    if |fs| == 0 {
      assert es + fs == es;
    } else {
      assert (es + fs)[..|es + fs| - 1] == es + fs[..|fs| - 1];
      PerformSplit(d, es, fs[..|fs| - 1]);
    }
  }

  // ----- appending -----

  function AppendEffects(size: nat, segs: seq<ByteString>, frame: ByteString): seq<Effect>
    requires |segs| > 0
  {
    if |segs[|segs| - 1]| + |frame| > size then [CreateSegment, Append(frame)] else [Append(frame)]
  }

  function AppendTo(size: nat, segs: seq<ByteString>, frame: ByteString): (r: seq<ByteString>)
    requires |segs| > 0
    ensures |r| > 0
  {
    if |segs[|segs| - 1]| + |frame| > size then segs + [frame] else GrowLast(segs, frame)
  }

  /** A new segment is started exactly when the frame does not fit behind what the last one holds. */
  lemma AppendStarts(size: nat, segs: seq<ByteString>, frame: ByteString)
    requires |segs| > 0
    ensures |AppendTo(size, segs, frame)| == |segs| + if |segs[|segs| - 1]| + |frame| > size then 1 else 0
  {}

  lemma AppendPerforms(size: nat, d: Disk, frame: ByteString)
    requires |d.segs| > 0
    ensures PerformAll(d, AppendEffects(size, d.segs, frame)) == d.(segs := AppendTo(size, d.segs, frame))
  {
    var es := AppendEffects(size, d.segs, frame);
    if |es| == 2 {
      var mid := Perform(d, CreateSegment);
      assert es[..1] == [CreateSegment] && es[..1][..0] == [];
      assert PerformAll(d, es[..1]) == mid;
      assert mid.segs[..|mid.segs| - 1] == d.segs;
      assert [] + frame == frame;
    } else {
      assert es[..0] == [];
    }
  }

  // ----- the index -----

  datatype Location = Location(segment: nat, offset: nat, length: nat)
  type Index = map<nat, Location>

  function Indexed(index: Index, segment: nat, es: seq<Entry>): Index
    decreases |es|
  {
    if |es| == 0 then index
    else
      var e := es[|es| - 1];
      Indexed(index, segment, es[..|es| - 1])[e.block.header.height := Location(segment, e.offset, e.size)]
  }

  datatype Recovery = Recovery(segs: seq<ByteString>, index: Index, effects: seq<Effect>)

  /** recoverSegments over the files in order: index what scans, cut off what is torn, give up on a record
      that cannot be decoded. */
  function Recover(lib: Lib, segs: seq<ByteString>): Option<Recovery>
    decreases |segs|
  {
    if |segs| == 0 then Some(Recovery([], map[], []))
    else
      var n := |segs| - 1;
      match Recover(lib, segs[..n])
      case None => None
      case Some(r) =>
        match ScanFrom(lib, segs[n], 0)
        case Unreadable => None
        case Scan(es, end, cut) =>
          Some(Recovery(r.segs + [if cut then segs[n][..end] else segs[n]], Indexed(r.index, n + 1, es),
                        if cut then r.effects + [Truncate(n, end)] else r.effects))
  }

  function ReadAt(lib: Lib, segs: seq<ByteString>, loc: Location): Option<Block> {
    if 1 <= loc.segment <= |segs| && loc.offset <= |segs[loc.segment - 1]| then
      match ReadFrame(lib, segs[loc.segment - 1][loc.offset..])
      case Got(p, _) => lib.decode(p)
      case _ => None
    else None
  }

  /** The blocks at some heights, or None when one is missing or cannot be read. */
  function ReadHeights(lib: Lib, segs: seq<ByteString>, index: Index, hs: seq<nat>): Option<seq<Block>>
    decreases |hs|
  {
    if |hs| == 0 then Some([])
    else
      var h := hs[|hs| - 1];
      match ReadHeights(lib, segs, index, hs[..|hs| - 1])
      case None => None
      case Some(bs) =>
        if h !in index then None
        else match ReadAt(lib, segs, index[h]) case None => None case Some(b) => Some(bs + [b])
  }

  lemma {:induction false} MissingSticks(lib: Lib, segs: seq<ByteString>, index: Index, hs: seq<nat>, i: nat)
    requires i < |hs| && (hs[i] in index ==> ReadAt(lib, segs, index[hs[i]]).None?)
    ensures ReadHeights(lib, segs, index, hs).None?
    decreases |hs|
  {
    hide ReadAt;
    if i < |hs| - 1 { MissingSticks(lib, segs, index, hs[..|hs| - 1], i); }
  }

  predicate NotAbove(a: nat, b: nat) { a <= b }

  ghost function ReadAllOf(lib: Lib, segs: seq<ByteString>, index: Index): Option<seq<Block>> {
    ReadHeights(lib, segs, index, InOrder(index.Keys, NotAbove))
  }

  // ----- a log without torn tails is a list of blocks -----

  predicate CleanLog(lib: Lib, segs: seq<ByteString>) {
    forall i | 0 <= i < |segs| :: Clean(lib, segs[i])
  }

  /** Segments no longer than the limit. */
  predicate Bounded(size: nat, segs: seq<ByteString>) {
    forall i | 0 <= i < |segs| :: |segs[i]| <= size
  }

  function LogBlocks(lib: Lib, segs: seq<ByteString>): seq<Block>
    decreases |segs|
  {
    if |segs| == 0 then []
    else LogBlocks(lib, segs[..|segs| - 1]) + BlocksOf(Entries(lib, segs[|segs| - 1]))
  }

  function IndexOf(lib: Lib, segs: seq<ByteString>): Index
    decreases |segs|
  {
    if |segs| == 0 then map[]
    else Indexed(IndexOf(lib, segs[..|segs| - 1]), |segs|, Entries(lib, segs[|segs| - 1]))
  }

  /** Every file scans to its end, or to a bare header that passes for it. */
  predicate UncutLog(lib: Lib, segs: seq<ByteString>) {
    forall i | 0 <= i < |segs| :: ScanFrom(lib, segs[i], 0).Scan? && !ScanFrom(lib, segs[i], 0).cut
  }

  /** Recovering such a log changes nothing. */
  lemma {:induction false} UncutRecovers(lib: Lib, segs: seq<ByteString>)
    requires UncutLog(lib, segs)
    ensures Recover(lib, segs) == Some(Recovery(segs, IndexOf(lib, segs), []))
    decreases |segs|
  {
    hide ScanFrom, Indexed;
    if |segs| > 0 {
      UncutRecovers(lib, segs[..|segs| - 1]);
      Snoc(segs);
    }
  }

  /** Recovery is idempotent on any files: recovering what recovery left changes nothing and gives the same
      index. */
  lemma {:induction false} RecoveryIsIdempotent(lib: Lib, segs: seq<ByteString>)
    requires Recover(lib, segs).Some?
    ensures var r := Recover(lib, segs).value;
            Recover(lib, r.segs) == Some(Recovery(r.segs, r.index, []))
    decreases |segs|
  {
    hide ScanFrom, Indexed;
    if |segs| > 0 {
      var before, data := segs[..|segs| - 1], segs[|segs| - 1];
      RecoveryIsIdempotent(lib, before);
      Snoc(segs);
      RecoverSnoc(lib, before, data);
      ScannedPartIsClean(lib, data, 0);
      var r, s := Recover(lib, before).value, ScanFrom(lib, data, 0);
      RecoverSnoc(lib, r.segs, if s.cut then data[..s.end] else data);
      assert |r.segs| == |before| by { RecoveryKeepsFiles(lib, before); }
    }
  }

  lemma {:induction false} RecoveryKeepsFiles(lib: Lib, segs: seq<ByteString>)
    requires Recover(lib, segs).Some?
    ensures |Recover(lib, segs).value.segs| == |segs|
    decreases |segs|
  {
    hide ScanFrom, Indexed;
    if |segs| > 0 { RecoveryKeepsFiles(lib, segs[..|segs| - 1]); }
  }

  lemma CleanRecovers(lib: Lib, segs: seq<ByteString>)
    requires CleanLog(lib, segs)
    ensures Recover(lib, segs) == Some(Recovery(segs, IndexOf(lib, segs), []))
  {
    forall i | 0 <= i < |segs| ensures ScanFrom(lib, segs[i], 0).Scan? && !ScanFrom(lib, segs[i], 0).cut {
      assert Clean(lib, segs[i]);
    }
    UncutRecovers(lib, segs);
  }

  /** Recovery is exact: of a clean log and a proper prefix of a frame it keeps the clean log and its index
      and cuts the rest; a bare header alone it leaves where it is. */
  lemma TornRecovers(lib: Lib, clean: seq<ByteString>, b: Block, t: nat)
    requires CleanLog(lib, clean) && |clean| > 0
    requires Framable(lib, lib.encode(b)) && t < |FrameOf(lib, lib.encode(b))|
    ensures var tail := FrameOf(lib, lib.encode(b))[..t];
            var last := |clean| - 1;
            Recover(lib, GrowLast(clean, tail)) ==
            if t == 0 || t == HEADER then Some(Recovery(GrowLast(clean, tail), IndexOf(lib, clean), []))
            else Some(Recovery(clean, IndexOf(lib, clean), [Truncate(last, |clean[last]|)]))
  {
    hide ScanFrom, Indexed, FrameOf, Framable, Entries, Recover, IndexOf, LogBlocks, CleanLog, Clean;
    var last := |clean| - 1;
    var before, data, tail := clean[..last], clean[last], FrameOf(lib, lib.encode(b))[..t];
    Snoc(clean);
    LogSnoc(lib, before, data);
    CleanRecovers(lib, before);
    ScanTorn(lib, data, b, t);
    RecoverSnoc(lib, before, data + tail);
    assert (data + tail)[..|data|] == data;
    assert [] + [Truncate(last, |data|)] == [Truncate(last, |data|)];
  }

  /** The store as it is once opened: its files, its index and the steps opening took. */
  function Opened(lib: Lib, d: Disk): (Disk, Index, seq<Effect>)
    requires Recover(lib, d.segs).Some?
  {
    var r := Recover(lib, d.segs).value;
    if |r.segs| == 0 then (d.(segs := [[]]), r.index, r.effects + [CreateSegment])
    else (d.(segs := r.segs), r.index, r.effects)
  }

  /** A record that cannot be decoded fails the recovery, whatever files follow. */
  lemma {:induction false} UndecodableSticks(lib: Lib, segs: seq<ByteString>, i: nat)
    requires i < |segs| && ScanFrom(lib, segs[i], 0).Unreadable?
    ensures Recover(lib, segs).None?
    decreases |segs|
  {
    hide ScanFrom;
    if i < |segs| - 1 { UndecodableSticks(lib, segs[..|segs| - 1], i); }
  }

  lemma RecoverSnoc(lib: Lib, before: seq<ByteString>, data: ByteString)
    requires Recover(lib, before).Some? && ScanFrom(lib, data, 0).Scan?
    ensures var r, s := Recover(lib, before).value, ScanFrom(lib, data, 0);
            Recover(lib, before + [data]) ==
            Some(Recovery(r.segs + [if s.cut then data[..s.end] else data], Indexed(r.index, |before| + 1, s.entries),
                          if s.cut then r.effects + [Truncate(|before|, s.end)] else r.effects))
  {
    hide ScanFrom, Indexed;
    assert (before + [data])[..|before|] == before;
  }

  /** One accepted append: the log stays clean and within its limit, its list grows by the block as the disk
      keeps it, and its index by the block's place. */
  lemma AppendRefinesList(lib: Lib, size: nat, segs: seq<ByteString>, b: Block)
    requires lib.Sound() && CleanLog(lib, segs) && |segs| > 0
    requires Framable(lib, lib.encode(b)) && |FrameOf(lib, lib.encode(b))| <= size
    ensures var frame := FrameOf(lib, lib.encode(b));
            var segs' := AppendTo(size, segs, frame);
            && CleanLog(lib, segs')
            && (Bounded(size, segs) ==> Bounded(size, segs'))
            && LogBlocks(lib, segs') == LogBlocks(lib, segs) + [Norm(b)]
            && IndexOf(lib, segs') ==
               IndexOf(lib, segs)[b.header.height := Location(|segs'|, |segs'[|segs'| - 1]| - |frame|, |frame|)]
  {
    hide FrameOf, Framable, Clean, CleanLog, LogBlocks, IndexOf;
    var frame := FrameOf(lib, lib.encode(b));
    var last := |segs| - 1;
    Snoc(segs);
    LogSnoc(lib, segs[..last], segs[last]);
    if |segs[last]| + |frame| > size {
      NoFrames(lib);
      LogSnoc(lib, segs, []);
      AppendLast(lib, segs, [], b);
      assert [] + frame == frame;
      assert Indexed(IndexOf(lib, segs), |segs| + 1, []) == IndexOf(lib, segs);
    } else {
      AppendLast(lib, segs[..last], segs[last], b);
    }
  }

  lemma AppendLast(lib: Lib, before: seq<ByteString>, data: ByteString, b: Block)
    requires lib.Sound() && CleanLog(lib, before) && Clean(lib, data)
    requires Framable(lib, lib.encode(b))
    ensures var frame := FrameOf(lib, lib.encode(b));
            var segs := before + [data + frame];
            && CleanLog(lib, segs)
            && LogBlocks(lib, segs) == LogBlocks(lib, before + [data]) + [Norm(b)]
            && IndexOf(lib, segs) ==
               IndexOf(lib, before + [data])[b.header.height := Location(|before| + 1, |data|, |frame|)]
  {
    hide FrameOf, Framable, Clean, CleanLog, LogBlocks, IndexOf, Entries, Indexed;
    var frame := FrameOf(lib, lib.encode(b));
    ScanAppended(lib, data, b);
    LogSnoc(lib, before, data + frame);
    LogSnoc(lib, before, data);
    RecordOne(IndexOf(lib, before), |before| + 1, Entries(lib, data), Entry(|data|, |frame|, Norm(b)));
  }

  lemma LogSnoc(lib: Lib, before: seq<ByteString>, data: ByteString)
    ensures LogBlocks(lib, before + [data]) == LogBlocks(lib, before) + BlocksOf(Entries(lib, data))
    ensures IndexOf(lib, before + [data]) == Indexed(IndexOf(lib, before), |before| + 1, Entries(lib, data))
    ensures CleanLog(lib, before + [data]) <==> CleanLog(lib, before) && Clean(lib, data)
  {
    hide Entries, Clean, Indexed;
    var segs := before + [data];
    assert segs[..|before|] == before;
    assert forall i | 0 <= i < |before| :: segs[i] == before[i];
    assert segs[|before|] == data;
  }

  lemma NothingIndexed(index: Index, segment: nat)
    ensures Indexed(index, segment, []) == index
  {}

  lemma RecordOne(index: Index, segment: nat, es: seq<Entry>, e: Entry)
    ensures Indexed(index, segment, es + [e]) ==
            Indexed(index, segment, es)[e.block.header.height := Location(segment, e.offset, e.size)]
    ensures BlocksOf(es + [e]) == BlocksOf(es) + [e.block]
    ensures [] + [e] == [e]
  {
    assert (es + [e])[..|es|] == es;
  }

  // ----- reading the log back -----

  predicate InHeightOrder(bs: seq<Block>) {
    forall i | 0 <= i < |bs| :: bs[i].header.height == i + 1
  }

  /** r is the index with the records of one more segment, whose heights go on from m. */
  ghost predicate Grown(index: Index, m: nat, segment: nat, es: seq<Entry>, r: Index) {
    && (forall h: nat :: h in r <==> 1 <= h <= m + |es|)
    && (forall h: nat | 1 <= h <= m && h in index && h in r :: r[h] == index[h])
    && (forall h: nat | m < h <= m + |es| && h in r ::
          r[h] == Location(segment, es[h - m - 1].offset, es[h - m - 1].size))
  }

  lemma {:induction false} IndexedGrows(index: Index, m: nat, segment: nat, es: seq<Entry>)
    requires forall i | 0 <= i < |es| :: es[i].block.header.height == m + i + 1
    requires forall h: nat :: h in index <==> 1 <= h <= m
    ensures Grown(index, m, segment, es, Indexed(index, segment, es))
    decreases |es|
  {
    if |es| > 0 { IndexedGrows(index, m, segment, es[..|es| - 1]); }
  }

  /** The index has exactly the heights of the list and finds each block at its height. */
  ghost predicate Finds(lib: Lib, segs: seq<ByteString>, index: Index, bs: seq<Block>) {
    && (forall h: nat :: h in index <==> 1 <= h <= |bs|)
    && (forall h: nat | 1 <= h <= |bs| :: ReadAt(lib, segs, index[h]) == Some(bs[h - 1]))
  }

  lemma FindsMore(lib: Lib, before: seq<ByteString>, data: ByteString, index: Index, bs: seq<Block>, r: Index)
    requires Finds(lib, before, index, bs)
    requires Grown(index, |bs|, |before| + 1, Entries(lib, data), r)
    ensures Finds(lib, before + [data], r, bs + BlocksOf(Entries(lib, data)))
  {
    hide ReadAt, Entries;
    var es, m := Entries(lib, data), |bs|;
    forall h: nat | 1 <= h <= m + |es|
      ensures ReadAt(lib, before + [data], r[h]) == Some((bs + BlocksOf(es))[h - 1])
    {
      if h <= m {
        ReadAtStays(lib, before, data, index[h]);
      } else {
        ReadAtLast(lib, before, data, h - m - 1);
      }
    }
  }

  lemma LaterHeights(bs: seq<Block>, es: seq<Entry>)
    requires InHeightOrder(bs + BlocksOf(es))
    ensures InHeightOrder(bs)
    ensures forall i | 0 <= i < |es| :: es[i].block.header.height == |bs| + i + 1
  {
    var all := bs + BlocksOf(es);
    assert forall i | 0 <= i < |bs| :: all[i] == bs[i];
    assert forall i | 0 <= i < |es| :: all[|bs| + i] == es[i].block;
  }

  /** The index of any log whose heights are in order finds every block of the log, torn tails or not. */
  lemma {:induction false} IndexFinds(lib: Lib, segs: seq<ByteString>)
    requires InHeightOrder(LogBlocks(lib, segs))
    ensures Finds(lib, segs, IndexOf(lib, segs), LogBlocks(lib, segs))
    decreases |segs|
  {
    hide ReadAt, Entries, Grown, Finds, InHeightOrder, Indexed;
    if |segs| > 0 {
      var before, data := segs[..|segs| - 1], segs[|segs| - 1];
      var bs, es := LogBlocks(lib, before), Entries(lib, data);
      Snoc(segs);
      LogSnoc(lib, before, data);
      LaterHeights(bs, es);
      IndexFinds(lib, before);
      FindsGrow(lib, before, data, IndexOf(lib, before), bs);
    } else {
      NothingToFind(lib);
    }
  }

  lemma NothingToFind(lib: Lib)
    ensures Finds(lib, [], map[], [])
  {}

  lemma FindsGrow(lib: Lib, before: seq<ByteString>, data: ByteString, index: Index, bs: seq<Block>)
    requires Finds(lib, before, index, bs)
    requires InHeightOrder(bs + BlocksOf(Entries(lib, data)))
    ensures Finds(lib, before + [data], Indexed(index, |before| + 1, Entries(lib, data)),
                  bs + BlocksOf(Entries(lib, data)))
  {
    hide ReadAt, Entries, Grown;
    LaterHeights(bs, Entries(lib, data));
    IndexedGrows(index, |bs|, |before| + 1, Entries(lib, data));
    FindsMore(lib, before, data, index, bs, Indexed(index, |before| + 1, Entries(lib, data)));
  }

  lemma ReadAtStays(lib: Lib, before: seq<ByteString>, data: ByteString, loc: Location)
    requires ReadAt(lib, before, loc).Some?
    ensures ReadAt(lib, before + [data], loc) == ReadAt(lib, before, loc)
  {
    hide ReadFrame;
  }

  lemma ReadAtLast(lib: Lib, before: seq<ByteString>, data: ByteString, i: nat)
    requires i < |Entries(lib, data)|
    ensures var e := Entries(lib, data)[i];
            ReadAt(lib, before + [data], Location(|before| + 1, e.offset, e.size)) == Some(e.block)
  {
    EntriesRead(lib, data, 0, i);
    hide ReadFrame, ScanFrom;
  }

  function UpTo(n: nat): (r: seq<nat>)
    ensures |r| == n
  {
    seq<nat>(n, i requires 0 <= i => i + 1)
  }

  lemma HeightsInOrder(index: Index, n: nat)
    requires forall h :: h in index <==> 1 <= h <= n
    ensures InOrder(index.Keys, NotAbove) == UpTo(n)
  {
    UpToMultiset(n, index.Keys);
    SortedEnumeration(UpTo(n), index.Keys, NotAbove);
    AlreadySorted(UpTo(n));
  }

  lemma {:induction false} AlreadySorted(xs: seq<nat>)
    requires Ascending(xs, NotAbove)
    ensures Sort(xs, NotAbove) == xs
  {
    if |xs| > 0 { AlreadySorted(xs[1..]); }
  }

  lemma {:induction false} UpToMultiset(n: nat, s: set<nat>)
    requires forall h :: h in s <==> 1 <= h <= n
    ensures multiset(UpTo(n)) == multiset(s)
  {
    if n == 0 {
      assert s == {};
    } else {
      UpToMultiset(n - 1, s - {n});
      assert UpTo(n) == UpTo(n - 1) + [n];
      assert multiset(s) == multiset(s - {n}) + multiset{n};
    }
  }

  lemma {:induction false} ReadsUpTo(lib: Lib, segs: seq<ByteString>, index: Index, bs: seq<Block>, n: nat)
    requires n <= |bs|
    requires forall h | 1 <= h <= |bs| :: h in index && ReadAt(lib, segs, index[h]) == Some(bs[h - 1])
    ensures ReadHeights(lib, segs, index, UpTo(n)) == Some(bs[..n])
  {
    if n > 0 {
      ReadsUpTo(lib, segs, index, bs, n - 1);
      assert UpTo(n)[..n - 1] == UpTo(n - 1);
      assert bs[..n] == bs[..n - 1] + [bs[n - 1]];
    }
  }

  /** Reading the whole log gives its blocks in height order. */
  lemma ReadAllIsLog(lib: Lib, segs: seq<ByteString>)
    requires InHeightOrder(LogBlocks(lib, segs))
    ensures ReadAllOf(lib, segs, IndexOf(lib, segs)) == Some(LogBlocks(lib, segs))
  {
    hide LogBlocks, ReadAt, IndexOf;
    var bs := LogBlocks(lib, segs);
    IndexFinds(lib, segs);
    HeightsInOrder(IndexOf(lib, segs), |bs|);
    ReadsUpTo(lib, segs, IndexOf(lib, segs), bs, |bs|);
    assert bs[..|bs|] == bs;
  }

  // ----- logs whose heights have a gap -----

  lemma {:induction false} LogJoins(lib: Lib, a: seq<ByteString>, b: seq<ByteString>)
    ensures LogBlocks(lib, a + b) == LogBlocks(lib, a) + LogBlocks(lib, b)
    decreases |b|
  {
    hide Entries;
    if |b| == 0 {
      assert a + b == a;
    } else {
      assert (a + b)[..|a + b| - 1] == a + b[..|b| - 1];
      LogJoins(lib, a, b[..|b| - 1]);
    }
  }

  /** Clean files behind others are kept whole by recovery and indexed. */
  lemma {:induction false} RecoverJoins(lib: Lib, before: seq<ByteString>, clean: seq<ByteString>,
                                        later: seq<ByteString>, es: seq<Effect>)
    requires Recover(lib, before) == Some(Recovery(clean, IndexOf(lib, clean), es)) && |clean| == |before|
    requires CleanLog(lib, later)
    ensures Recover(lib, before + later) == Some(Recovery(clean + later, IndexOf(lib, clean + later), es))
    decreases |later|
  {
    hide ScanFrom, Indexed, Recover, IndexOf, LogBlocks, Clean, Entries;
    if |later| == 0 {
      assert before + later == before && clean + later == clean;
    } else {
      var init, data := later[..|later| - 1], later[|later| - 1];
      Snoc(later);
      RecoverJoins(lib, before, clean, init, es);
      assert Clean(lib, data);
      CleanScan(lib, data);
      RecoverSnoc(lib, before + init, data);
      LogSnoc(lib, clean + init, data);
      assert before + later == (before + init) + [data];
      assert clean + later == (clean + init) + [data];
    }
  }

  lemma CleanScan(lib: Lib, data: ByteString)
    requires Clean(lib, data)
    ensures ScanFrom(lib, data, 0) == Scan(Entries(lib, data), |data|, false)
  {
    hide ReadFrame;
  }

  /** Some block of the list has the height. */
  ghost predicate Holding(bs: seq<Block>, h: nat) { exists i :: 0 <= i < |bs| && bs[i].header.height == h }

  lemma HoldingMore(bs: seq<Block>, more: seq<Block>, h: nat)
    ensures Holding(bs + more, h) <==> Holding(bs, h) || Holding(more, h)
  {
    if Holding(bs, h) {
      var i :| 0 <= i < |bs| && bs[i].header.height == h;
      assert (bs + more)[i].header.height == h;
    }
    if Holding(more, h) {
      var i :| 0 <= i < |more| && more[i].header.height == h;
      assert (bs + more)[|bs| + i].header.height == h;
    }
  }

  lemma HoldingOne(b: Block, h: nat)
    ensures Holding([b], h) <==> b.header.height == h
  {
    assert [b][0] == b;
  }

  lemma {:induction false} IndexedHeights(index: Index, segment: nat, es: seq<Entry>, h: nat)
    ensures h in Indexed(index, segment, es) <==> h in index || Holding(BlocksOf(es), h)
    decreases |es|
  {
    hide Holding;
    if |es| == 0 {
      NothingHeld(h);
    } else {
      var init, e := es[..|es| - 1], es[|es| - 1];
      Snoc(es);
      IndexedHeights(index, segment, init, h);
      RecordOne(index, segment, init, e);
      HoldingMore(BlocksOf(init), [e.block], h);
      HoldingOne(e.block, h);
    }
  }

  lemma NothingHeld(h: nat)
    ensures !Holding([], h) && !Holding(BlocksOf([]), h)
  {}

  /** The index has the heights of the blocks of the log. */
  lemma {:induction false} IndexHeights(lib: Lib, segs: seq<ByteString>, h: nat)
    ensures h in IndexOf(lib, segs) <==> Holding(LogBlocks(lib, segs), h)
    decreases |segs|
  {
    hide Entries, Holding, Indexed;
    if |segs| == 0 {
      NothingHeld(h);
    } else {
      var before, data := segs[..|segs| - 1], segs[|segs| - 1];
      Snoc(segs);
      LogSnoc(lib, before, data);
      IndexHeights(lib, before, h);
      IndexedHeights(IndexOf(lib, before), |segs|, Entries(lib, data), h);
      HoldingMore(LogBlocks(lib, before), BlocksOf(Entries(lib, data)), h);
    }
  }

  /** What the index points to at a height is a block of that height. */
  ghost predicate ReadsHeight(lib: Lib, segs: seq<ByteString>, index: Index, h: nat) {
    h in index ==> ReadAt(lib, segs, index[h]).Some? && ReadAt(lib, segs, index[h]).value.header.height == h
  }

  lemma {:induction false} IndexedReads(lib: Lib, before: seq<ByteString>, data: ByteString, index: Index, n: nat,
                                        h: nat)
    requires n <= |Entries(lib, data)| && ReadsHeight(lib, before, index, h)
    ensures ReadsHeight(lib, before + [data], Indexed(index, |before| + 1, Entries(lib, data)[..n]), h)
    decreases n
  {
    hide ReadAt, Entries;
    var es := Entries(lib, data);
    if n == 0 {
      if h in index { ReadAtStays(lib, before, data, index[h]); }
    } else {
      IndexedReads(lib, before, data, index, n - 1, h);
      ReadAtLast(lib, before, data, n - 1);
      TakeMore(es, n - 1);
      RecordOne(index, |before| + 1, es[..n - 1], es[n - 1]);
    }
  }

  lemma {:induction false} IndexReads(lib: Lib, segs: seq<ByteString>, h: nat)
    ensures ReadsHeight(lib, segs, IndexOf(lib, segs), h)
    decreases |segs|
  {
    hide ReadAt, Entries, Indexed;
    if |segs| > 0 {
      var before, data := segs[..|segs| - 1], segs[|segs| - 1];
      var es := Entries(lib, data);
      Snoc(segs);
      IndexReads(lib, before, h);
      IndexedReads(lib, before, data, IndexOf(lib, before), |es|, h);
      assert es[..|es|] == es;
    }
  }

  lemma {:induction false} HeightsRead(lib: Lib, segs: seq<ByteString>, index: Index, hs: seq<nat>)
    requires ReadHeights(lib, segs, index, hs).Some?
    requires forall i | 0 <= i < |hs| :: ReadsHeight(lib, segs, index, hs[i])
    ensures var bs := ReadHeights(lib, segs, index, hs).value;
            |bs| == |hs| && forall i | 0 <= i < |hs| :: bs[i].header.height == hs[i]
    decreases |hs|
  {
    hide ReadAt;
    if |hs| > 0 {
      var init := hs[..|hs| - 1];
      assert forall i | 0 <= i < |init| :: ReadsHeight(lib, segs, index, init[i]) by {
        assert forall i | 0 <= i < |init| :: init[i] == hs[i];
      }
      HeightsRead(lib, segs, index, init);
      assert ReadsHeight(lib, segs, index, hs[|hs| - 1]);
    }
  }

  /** A log that holds a height but not a lower one is never read as a list in height order. */
  lemma GapsShow(lib: Lib, segs: seq<ByteString>, low: nat, high: nat)
    requires 0 < low < high && !Holding(LogBlocks(lib, segs), low) && Holding(LogBlocks(lib, segs), high)
    ensures var r := ReadAllOf(lib, segs, IndexOf(lib, segs)); r.Some? ==> !InHeightOrder(r.value)
  {
    hide IndexOf, LogBlocks, ReadAt, Holding, ReadsHeight, ReadHeights;
    var index := IndexOf(lib, segs);
    var hs := InOrder(index.Keys, NotAbove);
    IndexHeights(lib, segs, low);
    IndexHeights(lib, segs, high);
    KeysInOrder(index);
    if ReadAllOf(lib, segs, index).Some? {
      forall i | 0 <= i < |hs| ensures ReadsHeight(lib, segs, index, hs[i]) { IndexReads(lib, segs, hs[i]); }
      HeightsRead(lib, segs, index, hs);
      GapBreaksOrder(hs, ReadAllOf(lib, segs, index).value, low, high);
    }
  }

  lemma GapBreaksOrder(hs: seq<nat>, bs: seq<Block>, low: nat, high: nat)
    requires |bs| == |hs| && forall i | 0 <= i < |hs| :: bs[i].header.height == hs[i]
    requires 0 < low < high && low !in hs && high in hs
    ensures !InHeightOrder(bs)
  {
    var i :| 0 <= i < |hs| && hs[i] == high;
    assert bs[i].header.height == high;
    assert low <= |hs| ==> bs[low - 1].header.height == hs[low - 1] != low;
  }

  lemma KeysInOrder(index: Index)
    ensures forall h :: h in InOrder(index.Keys, NotAbove) <==> h in index
  {
    InOrderSorts(index.Keys, NotAbove);
  }

  // ----- frames that fit -----

  predicate Fits(lib: Lib, size: nat, b: Block) { |FrameOf(lib, lib.encode(b))| <= size }

  lemma FittingIsFramable(lib: Lib, size: nat, b: Block)
    requires lib.Sound() && size <= MAX_RECORD && Fits(lib, size, b)
    ensures Framable(lib, lib.encode(b))
  {}

  datatype WalRead = NoWal | BadWal | Wal(block: Block)

  function WalOf(lib: Lib, wal: Option<ByteString>): WalRead {
    match wal
    case None => NoWal
    case Some(bytes) =>
      match ReadFrame(lib, bytes)
      case Got(p, _) => (match lib.decode(p) case None => BadWal case Some(b) => Wal(b))
      case _ => BadWal
  }

  lemma WalReadsBack(lib: Lib, b: Block)
    requires lib.Sound() && Framable(lib, lib.encode(b))
    ensures WalOf(lib, Some(FrameOf(lib, lib.encode(b)))) == Wal(Norm(b))
  {
    hide ReadFrame, FrameOf, Framable;
    var fr := FrameOf(lib, lib.encode(b));
    FrameReadsBack(lib, lib.encode(b), []);
    assert fr + [] == fr;
  }

  lemma OversizedWal(lib: Lib, b: Block)
    requires MAX_RECORD < |Stored(lib, lib.encode(b))| < TWO_TO_THE_32
    ensures WalOf(lib, Some(FrameOf(lib, lib.encode(b)))) == BadWal
  {
    hide Word, Stored, HeaderOf;
    var frame := FrameOf(lib, lib.encode(b));
    assert frame[..HEADER] == HeaderOf(lib, lib.encode(b));
    HeaderWords(lib, lib.encode(b), frame);
  }

  /** A frame in the write-ahead log reads back unless its record is above the limit. */
  lemma WalReadsExactly(lib: Lib, b: Block)
    requires lib.Sound() && |Stored(lib, lib.encode(b))| < TWO_TO_THE_32
    ensures WalOf(lib, Some(FrameOf(lib, lib.encode(b))))
         == if |Stored(lib, lib.encode(b))| <= MAX_RECORD then Wal(Norm(b)) else BadWal
  {
    if |Stored(lib, lib.encode(b))| > MAX_RECORD {
      OversizedWal(lib, b);
    } else {
      assert Framable(lib, lib.encode(b));
      hide Framable, FrameOf, WalOf, Norm, Stored;
      WalReadsBack(lib, b);
    }
  }
}
