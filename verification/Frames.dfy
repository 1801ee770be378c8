/** The record format: framing a payload, reading a frame back, and scanning a segment file. */
module Frames {
  import opened ByteStrings
  import opened Options
  import opened Model

  const MAGIC := 0x41474932
  const MAX_RECORD := 0x1000_0000
  const HEADER := 16

  /** The bytes stored for a payload: packed when that is shorter. */
  function Stored(lib: Lib, payload: ByteString): ByteString {
    var packed := lib.deflate(payload);
    if |packed| >= |payload| then payload else packed
  }

  function HeaderOf(lib: Lib, payload: ByteString): (r: ByteString)
    ensures |r| == HEADER
  {
    var s := Stored(lib, payload);
    BigEndian(MAGIC) + BigEndian(|s|) + BigEndian(lib.crc(s)) + BigEndian(if |s| == |payload| then 1 else 2)
  }

  function FrameOf(lib: Lib, payload: ByteString): (r: ByteString)
    ensures |r| == HEADER + |Stored(lib, payload)|
  {
    HeaderOf(lib, payload) + Stored(lib, payload)
  }

  /** The frame is filled in place, word by word and then byte by byte. */
  method Frame(lib: Lib, payload: ByteString) returns (frame: ByteString)
    ensures frame == FrameOf(lib, payload)
  {
    var encoded := lib.deflate(payload);
    if |encoded| >= |payload| { encoded := payload; }
    var schema := 2;
    if |encoded| == |payload| { schema := 1; }
    var out := new byte[HEADER + |encoded|];
    PutWord(out, 0, MAGIC);
    PutWord(out, 4, |encoded|);
    PutWord(out, 8, lib.crc(encoded));
    PutWord(out, 12, schema);
    assert out[..HEADER] == out[..12] + out[12..16];
    for i := 0 to |encoded|
      invariant out[..HEADER] == HeaderOf(lib, payload)
      invariant out[HEADER..HEADER + i] == encoded[..i]
    {
      out[HEADER + i] := encoded[i];
    }
    frame := out[..];
    assert frame == out[..HEADER] + out[HEADER..HEADER + |encoded|];
  }

  method PutWord(out: array<byte>, at: nat, n: nat)
    requires at + 4 <= out.Length
    modifies out
    ensures out[at..at + 4] == BigEndian(n)
    ensures out[..at] == old(out[..at]) && out[..at + 4] == old(out[..at]) + BigEndian(n)
  {
    var w := BigEndian(n);
    out[at], out[at + 1], out[at + 2], out[at + 3] := w[0], w[1], w[2], w[3];
    assert out[..at + 4] == out[..at] + out[at..at + 4];
  }

  datatype Read = Eof | Bad | Got(payload: ByteString, size: nat)

  /** readFrame at the start of some bytes. Having no byte of the payload reads as a clean end of file,
      just as having no byte of the header does. */
  function ReadFrame(lib: Lib, r: ByteString): (res: Read)
    ensures res.Got? ==> HEADER < res.size <= |r| && res.size <= HEADER + MAX_RECORD
  {
    if |r| == 0 then Eof
    else if |r| < HEADER then Bad
    else if Word(r[0..4]) != MAGIC then Bad
    else
      var l := Word(r[4..8]);
      if l == 0 || l > MAX_RECORD then Bad
      else if |r| == HEADER then Eof
      else if |r| < HEADER + l then Bad
      else
        var p := r[HEADER..HEADER + l];
        if lib.crc(p) != Word(r[8..12]) then Bad
        else if Word(r[12..16]) == 2 then
          match lib.inflate(p) case None => Bad case Some(plain) => Got(plain, HEADER + l)
        else Got(p, HEADER + l)
  }

  ghost predicate Framable(lib: Lib, payload: ByteString) {
    payload != [] && |Stored(lib, payload)| <= MAX_RECORD && Stored(lib, payload) != []
  }

  /** The record format, byte by byte: "AGI2", the length and the checksum of what is stored, 1 for a raw and 2 for a
      packed payload, and the payload packed if that is shorter. */
  lemma FrameIs(lib: Lib, payload: ByteString)
    ensures var packed := lib.deflate(payload);
            var s := if |packed| < |payload| then packed else payload;
            FrameOf(lib, payload)
            == [0x41, 0x47, 0x49, 0x32] + BigEndian(|s|) + BigEndian(lib.crc(s))
               + [0, 0, 0, if |packed| < |payload| then 2 else 1] + s
  {
    var magic: ByteString, one: ByteString, two: ByteString := [0x41, 0x47, 0x49, 0x32], [0, 0, 0, 1], [0, 0, 0, 2];
    assert BigEndian(MAGIC) == magic && BigEndian(1) == one && BigEndian(2) == two;
  }

  lemma MagicIs(b: ByteString)
    requires |b| == 4
    ensures Word(b) == MAGIC <==> b == [0x41, 0x47, 0x49, 0x32]
  {
    var magic: ByteString := [0x41, 0x47, 0x49, 0x32];
    assert BigEndian(MAGIC) == magic;
    WordsAreFourBytes(b);
  }

  /** What is read from any bytes: a record exactly when they begin with the magic, a length from 1 to 256 MiB, as many
      bytes with the given checksum, and these unpack when they are marked as packed; the end of the file exactly when
      there is nothing, or a valid header and nothing else. */
  lemma ReadsExactly(lib: Lib, r: ByteString, p: ByteString, n: nat)
    ensures ReadFrame(lib, r) == Got(p, n) <==>
            && |r| >= 16 && r[..4] == [0x41, 0x47, 0x49, 0x32]
            && var l := Word(r[4..8]);
               && 0 < l <= 0x1000_0000 && |r| >= 16 + l && n == 16 + l
               && lib.crc(r[16..16 + l]) == Word(r[8..12])
               && if Word(r[12..16]) == 2 then lib.inflate(r[16..16 + l]) == Some(p) else p == r[16..16 + l]
    ensures ReadFrame(lib, r) == Eof <==>
            || r == []
            || (|r| == 16 && r[..4] == [0x41, 0x47, 0x49, 0x32] && 0 < Word(r[4..8]) <= 0x1000_0000)
  {
    hide Word;
    if |r| >= 16 { MagicIs(r[..4]); }
  }

  lemma HeaderWords(lib: Lib, payload: ByteString, r: ByteString)
    requires |Stored(lib, payload)| < TWO_TO_THE_32 && |r| >= HEADER && r[..HEADER] == HeaderOf(lib, payload)
    ensures var s := Stored(lib, payload);
            && Word(r[0..4]) == MAGIC && Word(r[4..8]) == |s|
            && Word(r[8..12]) == lib.crc(s) && Word(r[12..16]) == if |s| == |payload| then 1 else 2
  {
    hide Stored, Word;
    var s, h := Stored(lib, payload), HeaderOf(lib, payload);
    var schema := if |s| == |payload| then 1 else 2;
    assert r[0..4] == h[0..4] == BigEndian(MAGIC);
    assert r[4..8] == h[4..8] == BigEndian(|s|);
    assert r[8..12] == h[8..12] == BigEndian(lib.crc(s));
    assert r[12..16] == h[12..16] == BigEndian(schema);
    WordRoundTrip(MAGIC);
    WordRoundTrip(|s|);
    WordRoundTrip(lib.crc(s));
    WordRoundTrip(schema);
  }

  /** A frame reads back as its payload whatever follows it, packed or not. */
  lemma FrameReadsBack(lib: Lib, payload: ByteString, rest: ByteString)
    requires lib.Sound() && Framable(lib, payload)
    ensures ReadFrame(lib, FrameOf(lib, payload) + rest) == Got(payload, |FrameOf(lib, payload)|)
  {
    var r := FrameOf(lib, payload) + rest;
    assert r[..HEADER] == HeaderOf(lib, payload);
    HeaderWords(lib, payload, r);
    assert r[HEADER..HEADER + |Stored(lib, payload)|] == Stored(lib, payload);
  }

  /** A proper prefix of a frame is cut off, except that the bare header, like nothing at all, passes for
      the end of the file. */
  lemma TornFrameReads(lib: Lib, payload: ByteString, t: nat)
    requires Framable(lib, payload) && t < |FrameOf(lib, payload)|
    ensures ReadFrame(lib, FrameOf(lib, payload)[..t]) == if t == 0 || t == HEADER then Eof else Bad
  {
    var r := FrameOf(lib, payload)[..t];
    if t >= HEADER {
      assert r[..HEADER] == HeaderOf(lib, payload);
      HeaderWords(lib, payload, r);
    }
  }

  /** Bytes behind a whole frame do not change how it reads. */
  lemma ReadIsLocal(lib: Lib, x: ByteString, y: ByteString)
    requires ReadFrame(lib, x).Got?
    ensures ReadFrame(lib, x + y) == ReadFrame(lib, x)
  {
    var r := x + y;
    assert r[0..4] == x[0..4] && r[4..8] == x[4..8] && r[8..12] == x[8..12] && r[12..16] == x[12..16];
    var l := Word(x[4..8]);
    assert r[HEADER..HEADER + l] == x[HEADER..HEADER + l];
  }

  lemma ReadInPrefix(lib: Lib, x: ByteString, m: nat)
    requires ReadFrame(lib, x).Got? && ReadFrame(lib, x).size <= m <= |x|
    ensures ReadFrame(lib, x[..m]) == ReadFrame(lib, x)
  {
    var r := x[..m];
    assert r[0..4] == x[0..4] && r[4..8] == x[4..8] && r[8..12] == x[8..12] && r[12..16] == x[12..16];
    var l := Word(x[4..8]);
    assert r[HEADER..HEADER + l] == x[HEADER..HEADER + l];
  }

  // ----- scanning -----

  datatype Entry = Entry(offset: nat, size: nat, block: Block)

  /** The records found, the offset where the scan stopped, and whether the rest must be cut off. */
  datatype Scan = Scan(entries: seq<Entry>, end: nat, cut: bool) | Unreadable

  function Prepend(es: seq<Entry>, s: Scan): Scan {
    match s case Unreadable => Unreadable case Scan(fs, end, cut) => Scan(es + fs, end, cut)
  }

  lemma PrependEnd(es: seq<Entry>, end: nat, cut: bool)
    ensures Prepend(es, Scan([], end, cut)) == Scan(es, end, cut)
  {
    assert es + [] == es;
  }

  function ScanFrom(lib: Lib, data: ByteString, off: nat): (r: Scan)
    requires off <= |data|
    ensures r.Scan? ==> off <= r.end <= |data| && (r.end == |data| ==> !r.cut)
    decreases |data| - off
  {
    match ReadFrame(lib, data[off..])
    case Eof => Scan([], off, false)
    case Bad => Scan([], off, true)
    case Got(p, n) =>
      match lib.decode(p)
      case None => Unreadable
      case Some(b) => Prepend([Entry(off, n, b)], ScanFrom(lib, data, off + n))
  }

  /** A file of whole, decodable frames and nothing else. */
  predicate Clean(lib: Lib, data: ByteString) {
    var s := ScanFrom(lib, data, 0);
    s.Scan? && s.end == |data|
  }

  function Entries(lib: Lib, data: ByteString): seq<Entry> {
    match ScanFrom(lib, data, 0) case Unreadable => [] case Scan(es, _, _) => es
  }

  function BlocksOf(es: seq<Entry>): (r: seq<Block>)
    ensures |r| == |es|
  {
    seq<Block>(|es|, i requires 0 <= i < |es| => es[i].block)
  }

  lemma PrependNothing(s: Scan)
    ensures Prepend([], s) == s
  {
    if s.Scan? { assert [] + s.entries == s.entries; }
  }

  lemma PrependTwice(es: seq<Entry>, fs: seq<Entry>, s: Scan)
    ensures Prepend(es, Prepend(fs, s)) == Prepend(es + fs, s)
  {
    if s.Scan? { assert es + (fs + s.entries) == (es + fs) + s.entries; }
  }

  lemma ScanStop(lib: Lib, data: ByteString, off: nat)
    requires off <= |data| && !ReadFrame(lib, data[off..]).Got?
    ensures ScanFrom(lib, data, off) == Scan([], off, ReadFrame(lib, data[off..]).Bad?)
  {
    hide ReadFrame;
  }

  lemma ScanFails(lib: Lib, data: ByteString, off: nat)
    requires off <= |data| && ReadFrame(lib, data[off..]).Got?
    requires lib.decode(ReadFrame(lib, data[off..]).payload).None?
    ensures ScanFrom(lib, data, off) == Unreadable
  {
    hide ReadFrame;
  }

  lemma ScanStep(lib: Lib, data: ByteString, off: nat, p: ByteString, n: nat, b: Block)
    requires off + n <= |data|
    requires ReadFrame(lib, data[off..]) == Got(p, n) && lib.decode(p) == Some(b)
    ensures ScanFrom(lib, data, off) == Prepend([Entry(off, n, b)], ScanFrom(lib, data, off + n))
  {
    hide ReadFrame;
  }

  /** Behind whole frames the scan goes on as it would have started there. */
  lemma {:induction false} ScanGoesOn(lib: Lib, data: ByteString, rest: ByteString, off: nat)
    requires off <= |data|
    requires ScanFrom(lib, data, off).Scan? && ScanFrom(lib, data, off).end == |data|
    ensures ScanFrom(lib, data + rest, off)
         == Prepend(ScanFrom(lib, data, off).entries, ScanFrom(lib, data + rest, |data|))
    decreases |data| - off
  {
    hide ReadFrame;
    assert (data + rest)[off..] == data[off..] + rest;
    var here := ReadFrame(lib, data[off..]);
    if here.Got? {
      var b := lib.decode(here.payload).value;
      ReadIsLocal(lib, data[off..], rest);
      ScanStep(lib, data, off, here.payload, here.size, b);
      ScanStep(lib, data + rest, off, here.payload, here.size, b);
      ScanGoesOn(lib, data, rest, off + here.size);
      var next := ScanFrom(lib, data, off + here.size);
      PrependTwice([Entry(off, here.size, b)], next.entries, ScanFrom(lib, data + rest, |data|));
    } else {
      assert off == |data|;
    }
  }

  /** Appending a frame to whole frames adds its record at the old end of the file. */
  lemma ScanAppended(lib: Lib, data: ByteString, b: Block)
    requires lib.Sound() && Clean(lib, data) && Framable(lib, lib.encode(b))
    ensures var fr := FrameOf(lib, lib.encode(b));
            && Clean(lib, data + fr)
            && Entries(lib, data + fr) == Entries(lib, data) + [Entry(|data|, |fr|, Norm(b))]
  {
    var fr := FrameOf(lib, lib.encode(b));
    ScanGoesOn(lib, data, fr, 0);
    assert (data + fr)[|data|..] == fr + [];
    FrameReadsBack(lib, lib.encode(b), []);
    assert (data + fr)[|data| + |fr|..] == [];
  }

  /** Segment recovery is exact: behind whole frames, a proper prefix of a frame adds no record and is cut
      off at the end of the last whole frame; only a bare header stays. */
  lemma ScanTorn(lib: Lib, data: ByteString, b: Block, t: nat)
    requires Clean(lib, data) && Framable(lib, lib.encode(b)) && t < |FrameOf(lib, lib.encode(b))|
    ensures ScanFrom(lib, data + FrameOf(lib, lib.encode(b))[..t], 0)
         == Scan(Entries(lib, data), |data|, t != 0 && t != HEADER)
  {
    var tail := FrameOf(lib, lib.encode(b))[..t];
    ScanGoesOn(lib, data, tail, 0);
    assert (data + tail)[|data|..] == tail;
    TornFrameReads(lib, lib.encode(b), t);
  }

  /** Every record found reads back at its offset. */
  lemma {:induction false} EntriesRead(lib: Lib, data: ByteString, off: nat, i: nat)
    requires off <= |data| && ScanFrom(lib, data, off).Scan? && i < |ScanFrom(lib, data, off).entries|
    ensures var e := ScanFrom(lib, data, off).entries[i];
            && e.offset + e.size <= |data|
            && ReadFrame(lib, data[e.offset..]).Got?
            && ReadFrame(lib, data[e.offset..]).size == e.size
            && lib.decode(ReadFrame(lib, data[e.offset..]).payload) == Some(e.block)
    decreases |data| - off
  {
    hide ReadFrame;
    if i > 0 { EntriesRead(lib, data, off + ReadFrame(lib, data[off..]).size, i - 1); }
  }

  /** Whatever the bytes, the part in front of the place where a scan stops scans to its end with the same
      records. */
  lemma {:induction false} ScannedPartIsClean(lib: Lib, data: ByteString, off: nat)
    requires off <= |data| && ScanFrom(lib, data, off).Scan?
    ensures var s := ScanFrom(lib, data, off);
            ScanFrom(lib, data[..s.end], off) == Scan(s.entries, s.end, false)
    decreases |data| - off
  {
    hide ReadFrame;
    var s := ScanFrom(lib, data, off);
    var kept := data[..s.end];
    var here := ReadFrame(lib, data[off..]);
    if here.Got? {
      var n, b := here.size, lib.decode(here.payload).value;
      ScannedPartIsClean(lib, data, off + n);
      assert kept[off..] == data[off..][..s.end - off];
      ReadInPrefix(lib, data[off..], s.end - off);
      ScanStep(lib, kept, off, here.payload, n, b);
    } else {
      assert kept[off..] == [];
      ReadNothing(lib);
      ScanStop(lib, kept, off);
    }
  }

  lemma ReadNothing(lib: Lib)
    ensures ReadFrame(lib, []) == Eof
  {}

  // ----- a stream of frames -----

  function FramesOf(lib: Lib, bs: seq<Block>): ByteString
    decreases |bs|
  {
    if |bs| == 0 then [] else FramesOf(lib, bs[..|bs| - 1]) + FrameOf(lib, lib.encode(bs[|bs| - 1]))
  }

  /** The records of such a stream: each block as the disk keeps it, behind the frames before it. */
  function StreamEntries(lib: Lib, bs: seq<Block>): (r: seq<Entry>)
    ensures |r| == |bs|
    decreases |bs|
  {
    if |bs| == 0 then []
    else
      var before, b := bs[..|bs| - 1], bs[|bs| - 1];
      StreamEntries(lib, before) + [Entry(|FramesOf(lib, before)|, |FrameOf(lib, lib.encode(b))|, Norm(b))]
  }

  /** A concatenation of frames parses in one way only: into its blocks. */
  lemma {:induction false} StreamParses(lib: Lib, bs: seq<Block>)
    requires lib.Sound() && forall i | 0 <= i < |bs| :: Framable(lib, lib.encode(bs[i]))
    ensures Clean(lib, FramesOf(lib, bs)) && Entries(lib, FramesOf(lib, bs)) == StreamEntries(lib, bs)
    decreases |bs|
  {
    hide FrameOf, Framable, Clean, Entries, Norm;
    if |bs| == 0 {
      NoFrames(lib);
    } else {
      StreamParses(lib, bs[..|bs| - 1]);
      ScanAppended(lib, FramesOf(lib, bs[..|bs| - 1]), bs[|bs| - 1]);
    }
  }

  lemma NoFrames(lib: Lib)
    ensures Clean(lib, []) && Entries(lib, []) == []
  {
    var data: ByteString := [];
    assert data[0..] == [];
  }
}
