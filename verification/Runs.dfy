/** Whole runs: any sequence of opens, commits and crashes, including crashes inside an open. */
module Runs {
  import opened ByteStrings
  import opened Options
  import opened MerkleBinding
  import opened Model
  import opened Writes
  import opened Chain
  import opened Frames
  import opened Log
  import opened Opening
  import opened CrashSafety
  import opened Engines

  /** The crash events say how many durable steps finished and where the next one was cut. */
  datatype Event = Open | Commit(req: Request) | Crash
                 | CrashInOpen(done: nat, torn: nat) | CrashInCommit(req: Request, done: nat, torn: nat)

  /** The directory, whether a process has it open, the acknowledged blocks, the block of a commit that crashed after
      its write-ahead log was in place, and whether the write-ahead log is that of a commit refused as too long. */
  datatype Sys = Sys(disk: Disk, up: bool, acked: seq<Block>, flight: Option<Block>, stuck: bool)

  const START := Sys(BLANK, false, [], None, false)

  /** What the next open must find. */
  function Expected(s: Sys): seq<Block> {
    match s.flight case None => s.acked case Some(b) => s.acked + [b]
  }

  ghost function DecideOn(lib: Lib, s: Sys, r: Request): Outcome {
    match LoadAll(lib, s.acked)
    case None => NoTransactions
    case Some(c) => Decide(lib, c, r.txs, r.now)
  }

  /** The durable steps of committing a block: all of them, or the first two when it is refused as too long. */
  ghost function StepsOf(lib: Lib, size: nat, s: Sys, b: Block): seq<Effect> {
    var frame := FrameOf(lib, lib.encode(b));
    if |s.disk.segs| == 0 then []
    else if Fits(lib, size, b) then CommitEffects(size, s.disk.segs, frame)
    else [WriteTmp(frame), RenameTmp]
  }

  /** What the block of a commit must meet beyond being built: its record hash is new, and its values are kept if it
      fits a segment. */
  ghost predicate Regular(lib: Lib, size: nat, s: Sys, r: Request) {
    var o := DecideOn(lib, s, r);
    o.Built? ==>
      && MustReplay(s.acked, o.block)
      && if Fits(lib, size, o.block) then ValuesKept(o.block) else TooLong(lib, size, o.block)
  }

  ghost predicate Legal(lib: Lib, size: nat, s: Sys, e: Event) {
    match e
    case Open => !s.up
    case Commit(r) => s.up && Regular(lib, size, s, r)
    case Crash => s.up
    case CrashInOpen(done, torn) =>
      !s.up && (match OpenDisk(lib, size, s.disk)
                case Fails => true
                case Opens(_, _, es) => done <= |es| && TearsCleanly(es, done, torn))
    case CrashInCommit(r, done, torn) =>
      && s.up && Regular(lib, size, s, r)
      && var o := DecideOn(lib, s, r);
         (o.Built? ==> var es := StepsOf(lib, size, s, o.block); done <= |es| && TearsCleanly(es, done, torn))
  }

  /** A whole commit of a block. */
  ghost function Persist(lib: Lib, size: nat, s: Sys, b: Block): Sys {
    var d := PerformAll(s.disk, StepsOf(lib, size, s, b));
    if Fits(lib, size, b) then Sys(d, true, s.acked + [b], None, false) else Sys(d, true, s.acked, None, true)
  }

  /** A commit of a block that a crash cuts short: the second step, the rename, decides. */
  ghost function PersistCut(lib: Lib, size: nat, s: Sys, b: Block, done: nat, torn: nat): Sys
    requires done <= |StepsOf(lib, size, s, b)|
  {
    var d := Crashed(s.disk, StepsOf(lib, size, s, b), done, torn);
    if done < 2 then Sys(d, false, s.acked, None, s.stuck)
    else if Fits(lib, size, b) then Sys(d, false, s.acked, Some(b), false)
    else Sys(d, false, s.acked, None, true)
  }

  ghost function Next(lib: Lib, size: nat, s: Sys, e: Event): Sys
    requires Legal(lib, size, s, e)
  {
    match e
    case Open =>
      (match OpenDisk(lib, size, s.disk)
       case Fails => s
       case Opens(c, d, _) => Sys(d, true, c.blocks, None, false))
    case Commit(r) =>
      (match DecideOn(lib, s, r)
       case Built(b) => Persist(lib, size, s, b)
       case _ => s)
    case Crash => s.(up := false)
    case CrashInOpen(done, torn) =>
      (match OpenDisk(lib, size, s.disk)
       case Fails => s
       case Opens(_, _, es) => s.(disk := Crashed(s.disk, es, done, torn)))
    case CrashInCommit(r, done, torn) =>
      (match DecideOn(lib, s, r)
       case Built(b) => PersistCut(lib, size, s, b, done, torn)
       case _ => s.(up := false))
  }

  ghost predicate LegalRun(lib: Lib, size: nat, es: seq<Event>)
    decreases |es|, 0
  {
    || |es| == 0
    || (LegalRun(lib, size, es[..|es| - 1]) && Legal(lib, size, After(lib, size, es[..|es| - 1]), es[|es| - 1]))
  }

  ghost function After(lib: Lib, size: nat, es: seq<Event>): Sys
    requires LegalRun(lib, size, es)
    decreases |es|, 1
  {
    if |es| == 0 then START else Next(lib, size, After(lib, size, es[..|es| - 1]), es[|es| - 1])
  }

  /** The disk recovers to what must be found, as the disk keeps it, unless a refused block is in the way. */
  ghost predicate Inv(lib: Lib, size: nat, s: Sys) {
    && LoadAll(lib, Expected(s)).Some? && AllKept(Expected(s))
    && (if s.stuck then s.flight.None? && Blocked(lib, size, s.disk, NormAll(s.acked))
        else Recoverable(lib, size, s.disk, NormAll(Expected(s))))
    && (s.up ==> s.flight.None? && Holds(lib, s.disk.segs, NormAll(s.acked)) && |s.disk.segs| > 0
                 && (!s.stuck ==> s.disk.wal == None))
  }

  /** The durable steps of a commit, all taken. */
  lemma CommitPerforms(size: nat, d: Disk, frame: ByteString)
    requires |d.segs| > 0
    ensures PerformAll(d, CommitEffects(size, d.segs, frame)) == Disk(AppendTo(size, d.segs, frame), None, None)
  {
    hide AppendTo;
    var d1 := d.(wal := Some(frame), tmp := None);
    var head, rest := [WriteTmp(frame), RenameTmp], AppendEffects(size, d.segs, frame);
    PerformTwo(d, WriteTmp(frame), RenameTmp);
    PerformSplit(d, head, rest);
    PerformSplit(d, head + rest, [RemoveWal]);
    AppendPerforms(size, d1, frame);
    PerformOne(d1.(segs := AppendTo(size, d.segs, frame)), RemoveWal);
  }

  lemma CommitCompletes(lib: Lib, size: nat, d: Disk, bs: seq<Block>, b: Block)
    requires lib.Sound() && size <= MAX_RECORD && MayFollow(lib, size, bs, b)
    requires Holds(lib, d.segs, NormAll(bs)) && |d.segs| > 0
    ensures var d' := PerformAll(d, CommitEffects(size, d.segs, FrameOf(lib, lib.encode(b))));
            Quiet(lib, d', NormAll(bs + [b])) && |d'.segs| > 0
  {
    hide Holds, Admissible, MayFollow, FrameOf, AppendTo, NormAll, Norm, Lib.Sound;
    FollowsAdmissibly(lib, size, bs, b);
    CommitPerforms(size, d, FrameOf(lib, lib.encode(b)));
    ReplayCompletes(lib, size, d, NormAll(bs), Norm(b));
  }

  /** Before the rename a crash leaves the segments and the write-ahead log as they were. */
  lemma BeforeRename(d: Disk, frame: ByteString, rest: seq<Effect>, done: nat, torn: nat)
    requires done < 2
    ensures var d' := Crashed(d, [WriteTmp(frame), RenameTmp] + rest, done, torn);
            d'.segs == d.segs && d'.wal == d.wal
  {
    var head := [WriteTmp(frame), RenameTmp];
    var es := head + rest;
    assert done == 0 ==> es[..done] == [];
    assert done == 1 ==> es[..done] == [WriteTmp(frame)];
    PerformOne(d, WriteTmp(frame));
    assert es[done] == head[done];
  }

  /** A crash inside a commit: before the rename nothing has happened to segments and write-ahead log, after it the
      block is safe. */
  lemma CommitCrashes(lib: Lib, size: nat, d: Disk, bs: seq<Block>, b: Block, done: nat, torn: nat)
    requires lib.Sound() && size <= MAX_RECORD && MayFollow(lib, size, bs, b)
    requires Holds(lib, d.segs, NormAll(bs)) && |d.segs| > 0
    requires var es := CommitEffects(size, d.segs, FrameOf(lib, lib.encode(b)));
             done <= |es| && TearsCleanly(es, done, torn)
    ensures var d' := Crashed(d, CommitEffects(size, d.segs, FrameOf(lib, lib.encode(b))), done, torn);
            if done >= 2 then Recoverable(lib, size, d', NormAll(bs + [b])) else d'.segs == d.segs && d'.wal == d.wal
  {
    hide Holds, Admissible, MayFollow, FrameOf, Recoverable, AppendEffects, NormAll, Norm, Lib.Sound, Crashed,
         TearsCleanly;
    var frame := FrameOf(lib, lib.encode(b));
    if done < 2 {
      CommitInParts(size, d.segs, frame);
      BeforeRename(d, frame, AppendEffects(size, d.segs, frame) + [RemoveWal], done, torn);
    } else {
      FollowsAdmissibly(lib, size, bs, b);
      AfterRename(lib, size, d, NormAll(bs), Norm(b), done, torn);
    }
  }

  lemma CommitInParts(size: nat, segs: seq<ByteString>, frame: ByteString)
    requires |segs| > 0
    ensures CommitEffects(size, segs, frame)
         == [WriteTmp(frame), RenameTmp] + (AppendEffects(size, segs, frame) + [RemoveWal])
  {}

  lemma AfterRename(lib: Lib, size: nat, d: Disk, bs: seq<Block>, b: Block, done: nat, torn: nat)
    requires lib.Sound() && size <= MAX_RECORD && Admissible(lib, size, bs, b)
    requires Holds(lib, d.segs, bs) && |d.segs| > 0 && done >= 2
    requires var es := CommitEffects(size, d.segs, FrameOf(lib, lib.encode(b)));
             done <= |es| && TearsCleanly(es, done, torn)
    ensures var es := CommitEffects(size, d.segs, FrameOf(lib, lib.encode(b)));
            Recoverable(lib, size, Crashed(d, es, done, torn), bs + [b])
  {
    hide Holds, Admissible, FrameOf, Recoverable, AppendEffects, Lib.Sound, Crashed, TearsCleanly, CommitEffects;
    var frame := FrameOf(lib, lib.encode(b));
    var head, rest := [WriteTmp(frame), RenameTmp], AppendEffects(size, d.segs, frame) + [RemoveWal];
    CommitInParts(size, d.segs, frame);
    PerformTwo(d, WriteTmp(frame), RenameTmp);
    CrashLater(d, head, rest, done, torn);
    ReplayCrashes(lib, size, d.(wal := Some(frame), tmp := None), bs, b, done - 2, torn);
  }

  /** The two steps of a refused commit, all taken or cut short. */
  lemma RefusedSteps(d: Disk, frame: ByteString, done: nat, torn: nat)
    requires done <= 2
    ensures var es := [WriteTmp(frame), RenameTmp];
            var d' := Crashed(d, es, done, torn);
            && PerformAll(d, es) == d.(wal := Some(frame), tmp := None)
            && if done == 2 then d' == PerformAll(d, es) else d'.segs == d.segs && d'.wal == d.wal
  {
    var es := [WriteTmp(frame), RenameTmp];
    assert es + [] == es && es[..2] == es;
    PerformTwo(d, WriteTmp(frame), RenameTmp);
    if done < 2 { BeforeRename(d, frame, [], done, torn); }
  }

  lemma QuietIsRecoverable(lib: Lib, size: nat, d: Disk, bs: seq<Block>)
    requires Quiet(lib, d, bs)
    ensures Recoverable(lib, size, d, bs)
  {}

  lemma RegularMayFollow(lib: Lib, size: nat, s: Sys, r: Request)
    requires LoadAll(lib, s.acked).Some? && AllKept(s.acked)
    requires Regular(lib, size, s, r) && DecideOn(lib, s, r).Built?
    ensures var b := DecideOn(lib, s, r).block;
            && MustReplay(s.acked, b)
            && if Fits(lib, size, b) then MayFollow(lib, size, s.acked, b) else TooLong(lib, size, b)
  {
    hide Decide, Loads, ValuesKept, Fits, MustReplay, LoadAll, AllKept, TooLong;
    BuiltLoads(lib, LoadAll(lib, s.acked).value, r.txs, r.now);
  }

  lemma UpHolds(lib: Lib, size: nat, s: Sys)
    requires Inv(lib, size, s) && s.up
    ensures s.flight.None? && Holds(lib, s.disk.segs, NormAll(s.acked)) && |s.disk.segs| > 0 && Expected(s) == s.acked
    ensures LoadAll(lib, s.acked).Some? && AllKept(s.acked)
  {}

  /** Nothing that was to be found before a step is lost by it, as the disk keeps it. */
  ghost predicate Keeps(s: Sys, s': Sys) { NormAll(Expected(s)) <= NormAll(Expected(s')) }

  lemma NormTip(bs: seq<Block>)
    ensures LastHash(NormAll(bs)) == LastHash(bs)
  {}

  /** The write-ahead log of a refused block blocks the directory. */
  lemma RefusedBlocks(lib: Lib, size: nat, d: Disk, bs: seq<Block>, b: Block)
    requires Holds(lib, d.segs, NormAll(bs)) && |d.segs| > 0
    requires TooLong(lib, size, b) && MustReplay(bs, b) && d.wal == Some(FrameOf(lib, lib.encode(b)))
    ensures Blocked(lib, size, d, NormAll(bs))
  {
    hide Holds, TooLong, FrameOf, NormAll, LastHash;
    NormTip(bs);
    assert MustReplay(NormAll(bs), b);
  }

  /** Segments and write-ahead log alone decide what a directory opens to. */
  lemma SameToOpen(lib: Lib, size: nat, d: Disk, d': Disk, bs: seq<Block>)
    requires d'.segs == d.segs && d'.wal == d.wal
    ensures Recoverable(lib, size, d, bs) <==> Recoverable(lib, size, d', bs)
    ensures Blocked(lib, size, d, bs) <==> Blocked(lib, size, d', bs)
  {
    hide Holds, TooLong, FrameOf, MustReplay, Admissible, TornBehind;
  }

  lemma PersistKeepsInv(lib: Lib, size: nat, s: Sys, b: Block)
    requires lib.Sound() && size <= MAX_RECORD && Inv(lib, size, s) && s.up && MustReplay(s.acked, b)
    requires if Fits(lib, size, b) then MayFollow(lib, size, s.acked, b) else TooLong(lib, size, b)
    ensures Inv(lib, size, Persist(lib, size, s, b)) && Keeps(s, Persist(lib, size, s, b))
  {
    hide Holds, Recoverable, Blocked, CommitEffects, FrameOf, MayFollow, LoadAll, AllKept, NormAll, Norm, Lib.Sound,
         Admissible, Fits, TooLong, MustReplay, PerformAll, Crashed;
    UpHolds(lib, size, s);
    var frame := FrameOf(lib, lib.encode(b));
    if Fits(lib, size, b) {
      FollowsAdmissibly(lib, size, s.acked, b);
      CommitCompletes(lib, size, s.disk, s.acked, b);
      QuietIsRecoverable(lib, size, PerformAll(s.disk, StepsOf(lib, size, s, b)), NormAll(s.acked + [b]));
    } else {
      RefusedSteps(s.disk, frame, 0, 0);
      RefusedBlocks(lib, size, s.disk.(wal := Some(frame), tmp := None), s.acked, b);
    }
  }

  lemma PersistCutKeepsInv(lib: Lib, size: nat, s: Sys, b: Block, done: nat, torn: nat)
    requires lib.Sound() && size <= MAX_RECORD && Inv(lib, size, s) && s.up && MustReplay(s.acked, b)
    requires if Fits(lib, size, b) then MayFollow(lib, size, s.acked, b) else TooLong(lib, size, b)
    requires done <= |StepsOf(lib, size, s, b)| && TearsCleanly(StepsOf(lib, size, s, b), done, torn)
    ensures Inv(lib, size, PersistCut(lib, size, s, b, done, torn))
    ensures Keeps(s, PersistCut(lib, size, s, b, done, torn))
  {
    hide Holds, Recoverable, Blocked, CommitEffects, FrameOf, MayFollow, LoadAll, AllKept, NormAll, Norm, Lib.Sound,
         Admissible, Fits, TooLong, MustReplay, PerformAll, Crashed, TearsCleanly;
    UpHolds(lib, size, s);
    var frame := FrameOf(lib, lib.encode(b));
    var d' := Crashed(s.disk, StepsOf(lib, size, s, b), done, torn);
    if Fits(lib, size, b) {
      FollowsAdmissibly(lib, size, s.acked, b);
      CommitCrashes(lib, size, s.disk, s.acked, b, done, torn);
    } else {
      RefusedSteps(s.disk, frame, done, torn);
      if done == 2 { RefusedBlocks(lib, size, d', s.acked, b); }
    }
    if done < 2 { SameToOpen(lib, size, s.disk, d', NormAll(s.acked)); }
  }

  lemma CommitKeepsInv(lib: Lib, size: nat, s: Sys, e: Event)
    requires lib.Sound() && size <= MAX_RECORD && Inv(lib, size, s) && Legal(lib, size, s, e)
    requires e.Commit? || e.CrashInCommit?
    ensures Inv(lib, size, Next(lib, size, s, e)) && Keeps(s, Next(lib, size, s, e))
  {
    hide Holds, Recoverable, Blocked, Regular, DecideOn, MayFollow, LoadAll, AllKept, NormAll, Lib.Sound, TooLong,
         MustReplay, Fits, Persist, PersistCut, StepsOf, TearsCleanly, OpenDisk;
    UpHolds(lib, size, s);
    if DecideOn(lib, s, e.req).Built? {
      var b := DecideOn(lib, s, e.req).block;
      RegularMayFollow(lib, size, s, e.req);
      if e.Commit? {
        PersistKeepsInv(lib, size, s, b);
      } else {
        PersistCutKeepsInv(lib, size, s, b, e.done, e.torn);
      }
    }
  }

  /** What the disk has kept once it keeps from then on. */
  lemma NormIsKept(bs: seq<Block>)
    ensures NormAll(NormAll(bs)) == NormAll(bs) && AllKept(NormAll(bs))
  {
    forall i | 0 <= i < |bs| ensures NormAll(NormAll(bs))[i] == NormAll(bs)[i] && ValuesKept(NormAll(bs)[i]) {
      NormKeepsExactlyNormalised(bs[i]);
      NormKeepsExactlyNormalised(Norm(bs[i]));
    }
  }

  lemma OpenKeepsInv(lib: Lib, size: nat, s: Sys, e: Event)
    requires lib.Sound() && size <= MAX_RECORD && Inv(lib, size, s) && Legal(lib, size, s, e) && !s.stuck
    requires e.Open? || e.CrashInOpen?
    ensures Inv(lib, size, Next(lib, size, s, e)) && Keeps(s, Next(lib, size, s, e))
    ensures e.Open? ==> Next(lib, size, s, e).up && Next(lib, size, s, e).acked == NormAll(Expected(s))
  {
    hide Holds, Recoverable, OpenDisk, LoadAll, Crashed, AllKept, NormAll, Lib.Sound, Blocked;
    RecoverableOpens(lib, size, s.disk, NormAll(Expected(s)));
    NormIsKept(Expected(s));
    if e.Open? { QuietIsRecoverable(lib, size, OpenDisk(lib, size, s.disk).disk, NormAll(Expected(s))); }
  }

  /** A directory that was closed or crashed with the write-ahead log of a refused block in place never changes
      again. */
  lemma StuckForever(lib: Lib, size: nat, s: Sys, e: Event)
    requires lib.Sound() && size <= MAX_RECORD && Inv(lib, size, s) && Legal(lib, size, s, e) && s.stuck && !s.up
    ensures OpenDisk(lib, size, s.disk) == Fails && Next(lib, size, s, e) == s
  {
    hide Blocked, OpenDisk, LoadAll, AllKept, NormAll, Lib.Sound;
    BlockedFails(lib, size, s.disk, NormAll(s.acked));
  }

  /** Every step keeps the invariant, and nothing that was to be found is lost. */
  lemma StepKeepsInv(lib: Lib, size: nat, s: Sys, e: Event)
    requires lib.Sound() && size <= MAX_RECORD && Inv(lib, size, s) && Legal(lib, size, s, e)
    ensures Inv(lib, size, Next(lib, size, s, e)) && Keeps(s, Next(lib, size, s, e))
  {
    hide Holds, Recoverable, Blocked, OpenDisk, DecideOn, LoadAll, AllKept, NormAll, Lib.Sound, Regular, Persist,
         PersistCut, StepsOf, TearsCleanly;
    match e
    case Open => if s.stuck { StuckForever(lib, size, s, e); } else { OpenKeepsInv(lib, size, s, e); }
    case CrashInOpen(_, _) => if s.stuck { StuckForever(lib, size, s, e); } else { OpenKeepsInv(lib, size, s, e); }
    case Commit(_) => CommitKeepsInv(lib, size, s, e);
    case CrashInCommit(_, _, _) => CommitKeepsInv(lib, size, s, e);
    case Crash =>
  }

  lemma StartIsQuiet(lib: Lib, size: nat)
    ensures Inv(lib, size, START)
  {}

  lemma {:induction false} RunKeepsInv(lib: Lib, size: nat, es: seq<Event>)
    requires lib.Sound() && size <= MAX_RECORD && LegalRun(lib, size, es)
    ensures Inv(lib, size, After(lib, size, es))
    decreases |es|
  {
    hide Inv, Next, Legal;
    if |es| == 0 {
      StartIsQuiet(lib, size);
    } else {
      RunKeepsInv(lib, size, es[..|es| - 1]);
      StepKeepsInv(lib, size, After(lib, size, es[..|es| - 1]), es[|es| - 1]);
    }
  }

  /** Crash safety: after any run, unless its last write-ahead log is that of a commit refused as too long, the next
      open succeeds and finds exactly the acknowledged blocks as the disk keeps them, and behind them the one block
      whose commit crashed after its write-ahead log was renamed into place; state, versions and counters are
      theirs. */
  lemma RunsAreCrashSafe(lib: Lib, size: nat, es: seq<Event>)
    requires lib.Sound() && size <= MAX_RECORD && LegalRun(lib, size, es)
    ensures var s := After(lib, size, es);
            && LoadAll(lib, Expected(s)).Some?
            && if s.stuck then OpenDisk(lib, size, s.disk) == Fails
               else && OpensTo(lib, size, s.disk, NormAll(Expected(s)))
                    && OpenDisk(lib, size, s.disk).ledger
                       == LoadAll(lib, Expected(s)).value.(blocks := NormAll(Expected(s)))
  {
    hide Recoverable, Blocked, OpenCrashesTo, Next, Legal, LegalRun, After, OpenDisk, LoadAll, NormAll, AllKept,
         Lib.Sound, Holds;
    RunKeepsInv(lib, size, es);
    var s := After(lib, size, es);
    if s.stuck {
      BlockedFails(lib, size, s.disk, NormAll(s.acked));
    } else {
      RecoverableOpens(lib, size, s.disk, NormAll(Expected(s)));
      KeptReload(lib, Expected(s));
    }
  }

  /** What one open would find, every later open finds: no acknowledged block is ever lost or moved. */
  lemma {:induction false} NothingIsLost(lib: Lib, size: nat, es: seq<Event>, n: nat)
    requires lib.Sound() && size <= MAX_RECORD && LegalRun(lib, size, es) && n <= |es|
    ensures LegalRun(lib, size, es[..n])
    ensures NormAll(Expected(After(lib, size, es[..n]))) <= NormAll(Expected(After(lib, size, es)))
    decreases |es|
  {
    hide Inv, Next, Legal, NormAll, Lib.Sound;
    if n == |es| {
      assert es[..n] == es;
    } else {
      var before := es[..|es| - 1];
      NothingIsLost(lib, size, before, n);
      assert before[..n] == es[..n];
      RunKeepsInv(lib, size, before);
      StepKeepsInv(lib, size, After(lib, size, before), es[|es| - 1]);
    }
  }

  /** Where the serialisation and the hash keep a new block and the last one apart, a commit is regular exactly when
      its block is too long, or no operation of the batch that has an effect writes an empty slice that is not nil. */
  lemma BuiltIsRegular(lib: Lib, size: nat, s: Sys, r: Request)
    requires LoadAll(lib, s.acked).Some? && DecideOn(lib, s, r).Built?
    requires |s.acked| > 0 ==>
               var two := {DecideOn(lib, s, r).block, s.acked[|s.acked| - 1]};
               CollisionFree(lib.hash, HashedBlocks(lib, two)) && JsonApart(lib, two)
    ensures var b := DecideOn(lib, s, r).block;
            Regular(lib, size, s, r) <==>
            if Fits(lib, size, b) then EffectsKept(LoadAll(lib, s.acked).value.state, FlatOps(r.txs))
            else |Stored(lib, lib.encode(b))| < TWO_TO_THE_32
  {
    hide Decide, Loads, ValuesKept, Fits, LoadAll, JsonApart, CollisionFree, HashedBlocks, EffectsKept, FlatOps,
         OpsKept, Stored;
    LoadedLedger(lib, s.acked);
    var c := LoadAll(lib, s.acked).value;
    BuiltLoads(lib, c, r.txs, r.now);
    BuiltKeepsExactly(lib, c, r.txs, r.now);
    if |s.acked| > 0 {
      NextHashIsNew(lib, c, DecideOn(lib, s, r).block, {DecideOn(lib, s, r).block, s.acked[|s.acked| - 1]});
    }
  }

  /** The commit event is what Engine.Commit does: same disk, same chain, same refusal, and its effects are the steps a
      crash can interrupt. */
  lemma CommitIsTheEvent(lib: Lib, size: nat, s: Sys, r: Request, res: CommitResult, c: Ledger, es: seq<Effect>,
                         c': Ledger, d': Disk, es': seq<Effect>)
    requires Inv(lib, size, s) && Legal(lib, size, s, Event.Commit(r)) && LoadAll(lib, s.acked) == Some(c)
    requires CommitStep(lib, size, Decide(lib, c, r.txs, r.now), res, c, s.disk, es, c', d', es')
    ensures Next(lib, size, s, Event.Commit(r)).disk == d' && Next(lib, size, s, Event.Commit(r)).acked == c'.blocks
    ensures DecideOn(lib, s, r).Built? ==>
              && es' == es + StepsOf(lib, size, s, DecideOn(lib, s, r).block)
              && (res.Oversized? <==> Next(lib, size, s, Event.Commit(r)).stuck)
  {
    hide Holds, Recoverable, Blocked, LoadAll, Decide, FrameOf, AppendTo, CommitEffects, ValuesKept, Fits, MustReplay,
         OpenDisk, Inv, TooLong, PerformAll, Crashed;
    UpHolds(lib, size, s);
    LoadedLedger(lib, s.acked);
    var o := Decide(lib, c, r.txs, r.now);
    if o.Built? {
      CommitPerforms(size, s.disk, FrameOf(lib, lib.encode(o.block)));
      RefusedSteps(s.disk, FrameOf(lib, lib.encode(o.block)), 0, 0);
    }
  }
}
