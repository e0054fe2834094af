/** Safety and termination of every run in which no output is delivered twice. */
module PipelineProgress {
  import opened Cardinality
  import opened Pipeline
  import opened PipelineSafety
  import opened PipelineExact

  // ----- Whole runs

  lemma ActionExact(c: Config, s: State, a: Action)
    requires Strict(c) && Conserved(c, s) && Exact(c, s) && Enabled(c, s, a)
    ensures Exact(c, Next(c, s, a))
  {
    hide Exact, Enabled, Next, Named, FinishedOnce;
    match a
    case Acquire => AcquireExact(c, s);
    case Register => RegisterExact(c, s);
    case SubmitSegment => SubmitSegmentExact(c, s);
    case WriteTiles(f) => WriteTilesExact(c, s, f);
    case FetchSegment(f, ok, again) => FetchSegmentExact(c, s, f, ok, again);
    case SubmitTile => SubmitTileExact(c, s);
    case FetchTile(f, t, ok, again) => FetchTileExact(c, s, f, t, ok, again);
    case SubmitStitch => SubmitStitchExact(c, s);
    case FetchStitch(f, ok, again) => FetchStitchExact(c, s, f, ok, again);
    case Mark(thread) => MarkExact(c, s, thread);
    case Remove(thread) => RemoveExact(c, s, thread);
    case Release(thread) => ReleaseExact(c, s, thread);
    case Stall => StallExact(c, s);
  }

  /** Tiles the segment thread has still to submit. */
  function Unsplit(c: Config, fetcher: Fetcher): int {
    if fetcher.Splitting? then c.tiles - fetcher.tile else 0
  }

  /** Tiles that the segment replies seen so far can have caused. */
  function Budget(segSeen: nat, tiles: nat): nat {
    segSeen * tiles
  }

  lemma BudgetGrows(segSeen: nat, tiles: nat)
    ensures Budget(segSeen + 1, tiles) == Budget(segSeen, tiles) + tiles
  {
  }

  lemma BudgetMonotone(n: nat, m: nat, tiles: nat)
    requires n <= m
    ensures Budget(n, tiles) <= Budget(m, tiles)
  {
  }

  /** The fetch loops have seen no more outputs than tasks were sent. */
  ghost predicate Counted(c: Config, s: State) {
    && s.segSeen + |s.segTasks| == s.next
    && s.infSeen + |s.infTasks| + Unsplit(c, s.seg) <= Budget(s.segSeen, c.tiles)
    && (s.seg.Splitting? ==> s.seg.tile < c.tiles)
    && !s.inf.Splitting? && !s.stitch.Splitting?
  }

  lemma CountedFetchSegment(c: Config, s: State, f: nat, ok: bool, again: bool)
    requires Strict(c) && Counted(c, s) && Enabled(c, s, FetchSegment(f, ok, again))
    ensures Counted(c, Next(c, s, FetchSegment(f, ok, again)))
  {
    hide Budget;
    BudgetGrows(s.segSeen, c.tiles);
  }

  lemma CountedSubmitTile(c: Config, s: State)
    requires Strict(c) && Counted(c, s) && Enabled(c, s, SubmitTile)
    ensures Counted(c, Next(c, s, SubmitTile))
  {
    hide Budget;
  }

  lemma CountedFetchTile(c: Config, s: State, f: nat, t: nat, ok: bool, again: bool)
    requires Strict(c) && Counted(c, s) && Enabled(c, s, FetchTile(f, t, ok, again))
    ensures Counted(c, Next(c, s, FetchTile(f, t, ok, again)))
  {
    hide Budget, Reply, CountTile;
  }

  lemma SameCounts(c: Config, s: State, s': State)
    requires Counted(c, s) && s'.next == s.next && s'.segSeen == s.segSeen && s'.infSeen == s.infSeen
    requires s'.segTasks == s.segTasks && s'.infTasks == s.infTasks
    requires s'.seg == s.seg || (!s.seg.Splitting? && !s'.seg.Splitting?)
    requires !s'.inf.Splitting? && !s'.stitch.Splitting?
    ensures Counted(c, s')
  {
  }

  lemma CountedMark(c: Config, s: State, thread: Thread)
    requires Counted(c, s) && Enabled(c, s, Mark(thread))
    ensures Counted(c, Next(c, s, Mark(thread)))
  {
    hide Budget;
    SameCounts(c, s, Next(c, s, Mark(thread)));
  }

  lemma CountedRemove(c: Config, s: State, thread: Thread)
    requires Counted(c, s) && Enabled(c, s, Remove(thread))
    ensures Counted(c, Next(c, s, Remove(thread)))
  {
    hide Budget;
    SameCounts(c, s, Next(c, s, Remove(thread)));
  }

  lemma CountedRelease(c: Config, s: State, thread: Thread)
    requires Counted(c, s) && Enabled(c, s, Release(thread))
    ensures Counted(c, Next(c, s, Release(thread)))
  {
    hide Budget;
    SameCounts(c, s, Next(c, s, Release(thread)));
  }

  lemma CountedStep(c: Config, s: State, a: Action)
    requires Strict(c) && Counted(c, s) && Enabled(c, s, a)
    ensures Counted(c, Next(c, s, a))
  {
    match a
    case FetchSegment(f, ok, again) =>
      CountedFetchSegment(c, s, f, ok, again);
    case SubmitTile =>
      CountedSubmitTile(c, s);
    case FetchTile(f, t, ok, again) =>
      CountedFetchTile(c, s, f, t, ok, again);
    case Mark(thread) =>
      CountedMark(c, s, thread);
    case Remove(thread) =>
      CountedRemove(c, s, thread);
    case Release(thread) =>
      CountedRelease(c, s, thread);
    case _ =>
  }

  ghost predicate Good(c: Config, s: State) {
    Conserved(c, s) && Exact(c, s) && Counted(c, s)
  }

  lemma {:induction false} RunGood(c: Config, s: State, run: seq<Action>)
    requires Strict(c) && Good(c, s) && IsRun(c, s, run)
    ensures Good(c, After(c, s, run))
    decreases |run|
  {
    hide Conserved, Exact, Counted, Enabled, Next;
    if run != [] {
      ActionKeeps(c, s, run[0]);
      ActionExact(c, s, run[0]);
      CountedStep(c, s, run[0]);
      RunGood(c, Next(c, s, run[0]), run[1..]);
    }
  }

  lemma StartGood(c: Config)
    ensures Good(c, Start(c))
  {
  }

  // ----- Safety

  /** When a frame's directory is removed no task naming the frame is outstanding in any stage. */
  lemma RemovalIsSafe(c: Config, run: seq<Action>, thread: Thread)
    requires Strict(c) && IsRun(c, Start(c), run) && Enabled(c, After(c, Start(c), run), Remove(thread))
    ensures var s := After(c, Start(c), run); var f := s.At(thread).frame;
            f !in s.segTasks && f !in s.stitchTasks && forall t: nat :: (f, t) !in s.infTasks
  {
    var s := After(c, Start(c), run);
    StartGood(c);
    RunGood(c, Start(c), run);
    FinishingIsDone(c, s, thread);
    DoneHasNoTasks(c, s, s.At(thread).frame);
  }

  lemma DoneHasNoTasks(c: Config, s: State, f: nat)
    requires Exact(c, s) && f in s.frames && s.frames[f].done
    ensures f !in s.segTasks && f !in s.stitchTasks && forall t: nat :: (f, t) !in s.infTasks
  {
    assert FrameOk(c, s, f);
    AllReplied(c, s, f);
  }

  lemma AllReplied(c: Config, s: State, f: nat)
    requires FrameOk(c, s, f) && s.frames[f].got == s.frames[f].sent
    ensures forall t: nat :: (f, t) !in s.infTasks
  {
    BoundedSet(s.frames[f].replied, s.frames[f].sent);
  }

  /** And no task ever runs without its directory: while an inference or stitch task of a frame is
      outstanding, the frame's directory is there. */
  lemma TasksHaveDirectory(c: Config, run: seq<Action>, f: nat)
    requires Strict(c) && IsRun(c, Start(c), run)
    requires var s := After(c, Start(c), run); f in s.stitchTasks || exists t: nat :: (f, t) in s.infTasks
    ensures f in After(c, Start(c), run).directories
  {
    var s := After(c, Start(c), run);
    StartGood(c);
    RunGood(c, Start(c), run);
    if f in s.stitchTasks {
      TakeNames(s.stitchTasks, f, true, s.frames.Keys);
      assert FrameOk(c, s, f);
    } else {
      var t: nat :| (f, t) in s.infTasks;
      TakeNamesTiles(s.infTasks, (f, t), true, s.frames.Keys);
      assert FrameOk(c, s, f);
      if s.frames[f].got == s.frames[f].sent {
        AllReplied(c, s, f);
      }
    }
  }

  /** A stitch task is sent, and outstanding, only once every tile has been answered successfully. */
  lemma StitchAfterAllTiles(c: Config, run: seq<Action>, f: nat)
    requires Strict(c) && IsRun(c, Start(c), run)
    requires var s := After(c, Start(c), run); f in s.stitchTasks || s.inf == Sending(f)
    ensures var s := After(c, Start(c), run); f in s.frames && forall t: nat :: t < c.tiles ==>
        t in s.frames[f].succeeded
  {
    var s := After(c, Start(c), run);
    StartGood(c);
    RunGood(c, Start(c), run);
    if f in s.stitchTasks {
      TakeNames(s.stitchTasks, f, true, s.frames.Keys);
    }
    assert FrameOk(c, s, f);
    BoundedSet(s.frames[f].replied, c.tiles);
  }

  /** At most in_flight frames hold a directory. */
  lemma DirectoriesBounded(c: Config, run: seq<Action>)
    requires Strict(c) && IsRun(c, Start(c), run)
    ensures |After(c, Start(c), run).directories| <= c.inFlight
  {
    var s := After(c, Start(c), run);
    StartGood(c);
    RunGood(c, Start(c), run);
    SemaphoreConserved(c, run);
    hide Conserved, Exact, Start, After;
    HoldersAcquired(c, s);
  }

  lemma HoldersAcquired(c: Config, s: State)
    requires Conserved(c, s) && Exact(c, s) && forall f :: s.released[f] <= 1
    ensures |s.released| + |s.directories| <= AcquiredCount(s)
  {
    hide Balanced, FinishedOnce, DispatchedOnce, FrameOk;
    var gone := set f | f in s.released;
    assert multiset(gone) == s.released;
    forall f | f in gone ensures f in s.frames && f !in s.directories {
      ReleasedHasNoDirectory(c, s, f);
    }
    forall f | f in gone + s.directories ensures f < KnownCount(s) {
      assert f in s.frames.Keys;
    }
    BoundedSet(gone + s.directories, KnownCount(s));
    assert |gone + s.directories| == |gone| + |s.directories|;
  }

  lemma ReleasedHasNoDirectory(c: Config, s: State, f: nat)
    requires Conserved(c, s) && Exact(c, s) && f in s.released
    ensures f in s.frames && f !in s.directories
  {
    assert (s.released + AllFinishing(s))[f] == multiset(DoneIn(s.frames))[f];
    assert f in multiset(DoneIn(s.frames));
    assert AllFinishing(s)[f] == 0;
    assert FrameOk(c, s, f);
  }

  // ----- Progress

  function FetcherWeight(c: Config, fetcher: Fetcher): int {
    match fetcher
    case Idle => 0
    case Splitting(_, t) => 7 * (c.tiles - t)
    case Sending(_) => 5
    case ToFinish(_, _) => 3
    case ToRemove(_) => 2
    case ToRelease(_) => 1
  }

  function SegmentWeight(c: Config): nat {
    7 * c.tiles + 4
  }

  function SubmitterWeight(submitter: Submitter): nat {
    match submitter
    case Waiting => 0
    case Acquired => 1
    case Registered => 2
  }

  ghost function Unwritten(s: State): set<nat> {
    (set f | f in s.segTasks) - s.directories
  }

  /** Work left: unsent frames, outstanding tasks of the three stages, and the threads' positions. */
  ghost function Measure(c: Config, s: State): int {
    Budget(c.count, SegmentWeight(c) + 4) - Budget(s.next, SegmentWeight(c) + 4) - SubmitterWeight(s.submitter)
    + Budget(|s.segTasks|, SegmentWeight(c)) + |Unwritten(s)| + 6 * |s.infTasks| + 4 * |s.stitchTasks|
    + ThreadsWeight(c, s)
  }

  function ThreadsWeight(c: Config, s: State): int {
    FetcherWeight(c, s.seg) + FetcherWeight(c, s.inf) + FetcherWeight(c, s.stitch)
  }

  lemma OneThreadWeighs(c: Config, s: State, s': State, thread: Thread)
    requires forall other :: other != thread ==> s'.At(other) == s.At(other)
    ensures ThreadsWeight(c, s') - FetcherWeight(c, s'.At(thread))
        == ThreadsWeight(c, s) - FetcherWeight(c, s.At(thread))
  {
    hide FetcherWeight;
    assert s'.seg == s'.At(SegThread) && s'.inf == s'.At(InfThread) && s'.stitch == s'.At(StitchThread);
    assert s.seg == s.At(SegThread) && s.inf == s.At(InfThread) && s.stitch == s.At(StitchThread);
  }

  lemma MeasureNonNegative(c: Config, s: State)
    requires Good(c, s)
    ensures Measure(c, s) >= 0
  {
    hide Budget, Unwritten, Exact, FinishedOnce, DispatchedOnce, Balanced;
    BudgetMonotone(s.next, c.count, SegmentWeight(c) + 4);
    BudgetNonNegative(|s.segTasks|, SegmentWeight(c));
    if !s.submitter.Waiting? {
      BudgetMonotone(s.next + 1, c.count, SegmentWeight(c) + 4);
      BudgetGrows(s.next, SegmentWeight(c) + 4);
    }
  }

  lemma BudgetNonNegative(n: nat, w: nat)
    ensures Budget(n, w) >= 0
  {
  }

  lemma SubmitterFalls(c: Config, s: State, a: Action)
    requires Enabled(c, s, a) && (a.Acquire? || a.Register? || a.SubmitSegment?)
    ensures Measure(c, Next(c, s, a)) < Measure(c, s)
  {
    if a.SubmitSegment? {
      UnwrittenAdds(s, s.next);
      hide Budget, Unwritten;
      BudgetGrows(s.next, SegmentWeight(c) + 4);
      BudgetGrows(|s.segTasks|, SegmentWeight(c));
    } else {
      assert Unwritten(Next(c, s, a)) == Unwritten(s);
    }
  }

  lemma UnwrittenAdds(s: State, f: nat)
    ensures |Unwritten(s.(segTasks := s.segTasks + multiset{f}, next := s.next + 1,
        submitter := Waiting))| <= |Unwritten(s)| + 1
  {
    var s' := s.(segTasks := s.segTasks + multiset{f}, next := s.next + 1, submitter := Waiting);
    SubsetSize(Unwritten(s'), Unwritten(s) + {f});
  }

  lemma SegmentFalls(c: Config, s: State, f: nat, ok: bool, again: bool)
    requires Strict(c) && Enabled(c, s, FetchSegment(f, ok, again))
    ensures Measure(c, Next(c, s, FetchSegment(f, ok, again))) < Measure(c, s)
  {
    var s' := Next(c, s, FetchSegment(f, ok, again));
    SubsetSize(Unwritten(s'), Unwritten(s));
    hide Budget, Unwritten;
    BudgetGrows(|s'.segTasks|, SegmentWeight(c));
  }

  lemma WrittenFalls(c: Config, s: State, f: nat)
    requires Enabled(c, s, WriteTiles(f))
    ensures Measure(c, Next(c, s, WriteTiles(f))) < Measure(c, s)
  {
    var s' := Next(c, s, WriteTiles(f));
    assert Unwritten(s') == Unwritten(s) - {f};
    assert f in Unwritten(s);
  }

  lemma SubmitTileFalls(c: Config, s: State)
    requires Strict(c) && Counted(c, s) && Enabled(c, s, SubmitTile)
    ensures Measure(c, Next(c, s, SubmitTile)) < Measure(c, s)
  {
    hide Budget, Unwritten;
    SameUnwritten(s, Next(c, s, SubmitTile));
  }

  /** Storing a reply leaves the queues alone and gives the thread at most a stitch to send. */
  lemma AdvanceQueues(c: Config, s: State, f: nat, frame: Frame)
    requires s.inf.Idle?
    ensures var s' := Advance(c, s, f, frame);
            && s'.next == s.next && s'.submitter == s.submitter && s'.segTasks == s.segTasks
                && s'.infTasks == s.infTasks
            && s'.stitchTasks == s.stitchTasks && s'.directories == s.directories && s'.seg == s.seg
                && s'.stitch == s.stitch
            && 0 <= FetcherWeight(c, s'.inf) <= 5
  {
  }

  lemma FetchTileFalls(c: Config, s: State, f: nat, t: nat, ok: bool, again: bool)
    requires Strict(c) && Enabled(c, s, FetchTile(f, t, ok, again))
    ensures Measure(c, Next(c, s, FetchTile(f, t, ok, again))) < Measure(c, s)
  {
    hide Budget, Unwritten, Reply, CountTile, Advance;
    var taken := s.(infTasks := s.infTasks - multiset{(f, t)}, infSeen := s.infSeen + 1,
        totals := CountTile(s.totals, ok));
    var s' := Next(c, s, FetchTile(f, t, ok, again));
    assert |taken.infTasks| == |s.infTasks| - 1;
    if f in s.frames {
      assert s' == Advance(c, taken, f, Reply(s.frames[f], t, ok));
      AdvanceQueues(c, taken, f, Reply(s.frames[f], t, ok));
    }
    hide Next;
    SameUnwritten(s, s');
  }

  lemma SameUnwritten(s: State, s': State)
    requires s'.segTasks == s.segTasks && s'.directories == s.directories
    ensures Unwritten(s') == Unwritten(s)
  {
  }

  lemma StitchFalls(c: Config, s: State, a: Action)
    requires Strict(c) && Enabled(c, s, a) && (a.SubmitStitch? || a.FetchStitch?)
    ensures Measure(c, Next(c, s, a)) < Measure(c, s)
  {
    hide Budget;
    assert Unwritten(Next(c, s, a)) == Unwritten(s);
  }

  lemma MarkFalls(c: Config, s: State, thread: Thread)
    requires Enabled(c, s, Mark(thread))
    ensures Measure(c, Next(c, s, Mark(thread))) < Measure(c, s)
  {
    hide Budget, Unwritten, ThreadsWeight;
    var s' := Next(c, s, Mark(thread));
    SameUnwritten(s, s');
    OneThreadWeighs(c, s, s', thread);
  }

  lemma RemoveFalls(c: Config, s: State, thread: Thread)
    requires FinishedOnce(s) && Exact(c, s) && Enabled(c, s, Remove(thread))
    ensures Measure(c, Next(c, s, Remove(thread))) < Measure(c, s)
  {
    hide Budget, ThreadsWeight, Exact, FinishedOnce;
    var s' := Next(c, s, Remove(thread));
    FinishingIsDone(c, s, thread);
    DoneHasNoTasks(c, s, s.At(thread).frame);
    assert s.At(thread).frame !in s.segTasks;
    assert Unwritten(s') == Unwritten(s);
    hide Unwritten;
    OneThreadWeighs(c, s, s', thread);
  }

  lemma ReleaseFalls(c: Config, s: State, thread: Thread)
    requires Enabled(c, s, Release(thread))
    ensures Measure(c, Next(c, s, Release(thread))) < Measure(c, s)
  {
    hide Budget, Unwritten, ThreadsWeight;
    var s' := Next(c, s, Release(thread));
    SameUnwritten(s, s');
    OneThreadWeighs(c, s, s', thread);
  }

  /** Every action but a stall uses up some of the work left. */
  lemma MeasureFalls(c: Config, s: State, a: Action)
    requires Strict(c) && Good(c, s) && Enabled(c, s, a) && !a.Stall?
    ensures Measure(c, Next(c, s, a)) < Measure(c, s)
  {
    hide Measure, Next, Enabled, Exact, Counted;
    match a
    case WriteTiles(f) => WrittenFalls(c, s, f);
    case FetchSegment(f, ok, again) => SegmentFalls(c, s, f, ok, again);
    case SubmitTile => SubmitTileFalls(c, s);
    case FetchTile(f, t, ok, again) => FetchTileFalls(c, s, f, t, ok, again);
    case SubmitStitch => StitchFalls(c, s, a);
    case FetchStitch(_, _, _) => StitchFalls(c, s, a);
    case Mark(thread) => MarkFalls(c, s, thread);
    case Remove(thread) => RemoveFalls(c, s, thread);
    case Release(thread) => ReleaseFalls(c, s, thread);
    case _ => SubmitterFalls(c, s, a);
  }

  /** The next action of a thread that is not waiting for an output. */
  function Own(thread: Thread, fetcher: Fetcher): Action
    requires !fetcher.Idle?
  {
    match fetcher
    case Splitting(_, _) => SubmitTile
    case Sending(_) => SubmitStitch
    case ToFinish(_, _) => Mark(thread)
    case ToRemove(_) => Remove(thread)
    case ToRelease(_) => Release(thread)
  }

  /** A busy thread sits where it can take its next action. */
  lemma BusyThreadMoves(c: Config, s: State, thread: Thread)
    requires Named(c, s) && Exact(c, s) && !s.At(thread).Idle?
    ensures Enabled(c, s, Own(thread, s.At(thread)))
  {
    var f := s.At(thread).frame;
    assert f in s.frames.Keys;
    assert FrameOk(c, s, f);
    var l := LocalOf(s, f);
    assert l.At(thread) == s.At(thread);
  }

  /** A known frame that is in no queue and with no thread is done. */
  lemma QuietFrameIsDone(c: Config, s: State, f: nat)
    requires Exact(c, s) && f in s.frames && s.submitter.Waiting?
    requires s.seg.Idle? && s.inf.Idle? && s.stitch.Idle?
    requires s.segTasks == multiset{} && s.infTasks == multiset{} && s.stitchTasks == multiset{}
    ensures s.frames[f].done
  {
    assert FrameOk(c, s, f);
    var frame := s.frames[f];
    if !frame.done {
      assert frame.sent == c.tiles && frame.got < c.tiles;
      forall t: nat | t < c.tiles ensures t in frame.replied {
        assert (f, t) !in s.infTasks;
      }
      CoveringSet(frame.replied, c.tiles);
    }
  }

  /** The same fetch with the given answer. */
  function Answered(a: Action, ok: bool): Action {
    match a
    case FetchSegment(f, _, again) => FetchSegment(f, ok, again)
    case FetchTile(f, t, _, again) => FetchTile(f, t, ok, again)
    case FetchStitch(f, _, again) => FetchStitch(f, ok, again)
    case _ => a
  }

  /** The segment service has written the directory of the frame whose reply is fetched. */
  function Written(c: Config, s: State, a: Action): State {
    if a.FetchSegment? && Enabled(c, s, WriteTiles(a.frame)) then Next(c, s, WriteTiles(a.frame)) else s
  }

  /** Every output outstanding for an idle thread can be fetched, and the service is free to have
      answered it either way. */
  lemma OutputsCanBeFetched(c: Config, s: State, a: Action, ok: bool)
    requires Strict(c) && Good(c, s)
    requires match a
             case FetchSegment(f, _, again) => s.seg.Idle? && f in s.segTasks && !again
             case FetchTile(f, t, _, again) => s.inf.Idle? && (f, t) in s.infTasks && !again
             case FetchStitch(f, _, again) => s.stitch.Idle? && f in s.stitchTasks && !again
             case _ => false
    ensures Enabled(c, Written(c, s, a), Answered(a, ok))
  {
    hide Exact, FinishedOnce, DispatchedOnce;
    match a
    case FetchSegment(f, _, _) =>
      assert |s.segTasks| > 0;
    case FetchTile(f, t, _, _) =>
      assert |s.infTasks| > 0;
      BudgetMonotone(s.segSeen, c.count, c.tiles);
    case FetchStitch(f, _, _) =>
  }

  /** With every fetching thread idle, an outstanding output can be fetched or a frame submitted. */
  lemma IdleThreadsMove(c: Config, s: State) returns (a: Action)
    requires Strict(c) && c.inFlight > 0 && Good(c, s) && !s.stalled && s.totals.imgDone < c.count
    requires s.seg.Idle? && s.inf.Idle? && s.stitch.Idle? && s.submitter.Waiting?
    ensures Enabled(c, s, a) && !a.Stall? && !a.WriteTiles?
    ensures forall ok :: Enabled(c, Written(c, s, a), Answered(a, ok))
  {
    hide Good, Enabled, Next;
    if f :| f in s.segTasks {
      a := FetchSegment(f, false, false);
    } else if p :| p in s.infTasks {
      a := FetchTile(p.0, p.1, false, false);
    } else if f :| f in s.stitchTasks {
      a := FetchStitch(f, false, false);
    } else {
      AllQuiet(c, s);
      return Acquire;
    }
    forall ok ensures Enabled(c, Written(c, s, a), Answered(a, ok)) {
      OutputsCanBeFetched(c, s, a, ok);
    }
    FailureNeedsNoDirectory(c, s, a);
  }

  /** A failing answer can be fetched whether or not the directory has been written. */
  lemma FailureNeedsNoDirectory(c: Config, s: State, a: Action)
    requires Enabled(c, Written(c, s, a), Answered(a, false)) && Answered(a, false) == a
    ensures Enabled(c, s, a)
  {
  }

  /** What is not a fetch depends on no answer. */
  lemma NoAnswerNeeded(c: Config, s: State, a: Action)
    requires Enabled(c, s, a) && !a.FetchSegment? && !a.FetchTile? && !a.FetchStitch?
    ensures forall ok :: Enabled(c, Written(c, s, a), Answered(a, ok))
  {
    hide Enabled, Next;
  }

  /** While frames are missing some thread can move, whatever the services answered so far; and if
      the move is a fetch, whichever way the service answers it now. */
  lemma SomeThreadMoves(c: Config, s: State) returns (a: Action)
    requires Strict(c) && c.inFlight > 0 && Good(c, s) && !s.stalled && s.totals.imgDone < c.count
    ensures Enabled(c, s, a) && !a.Stall? && !a.WriteTiles?
    ensures forall ok :: Enabled(c, Written(c, s, a), Answered(a, ok))
  {
    hide Exact, FinishedOnce, DispatchedOnce, Balanced, Counted, Named, Enabled, Written, Answered;
    if !s.seg.Idle? {
      a := MoveOf(c, s, SegThread);
    } else if !s.inf.Idle? {
      a := MoveOf(c, s, InfThread);
    } else if !s.stitch.Idle? {
      a := MoveOf(c, s, StitchThread);
    } else if !s.submitter.Waiting? {
      a := SubmitterMoves(c, s);
    } else {
      a := IdleThreadsMove(c, s);
    }
  }

  lemma MoveOf(c: Config, s: State, thread: Thread) returns (a: Action)
    requires Named(c, s) && Exact(c, s) && !s.At(thread).Idle?
    ensures Enabled(c, s, a) && !a.Stall? && !a.WriteTiles?
    ensures forall ok :: Enabled(c, Written(c, s, a), Answered(a, ok))
  {
    hide Exact, Named, Enabled;
    BusyThreadMoves(c, s, thread);
    a := Own(thread, s.At(thread));
    NoAnswerNeeded(c, s, a);
  }

  lemma SubmitterMoves(c: Config, s: State) returns (a: Action)
    requires !s.submitter.Waiting?
    ensures Enabled(c, s, a) && !a.Stall? && !a.WriteTiles?
    ensures forall ok :: Enabled(c, Written(c, s, a), Answered(a, ok))
  {
    a := if s.submitter.Acquired? then Register else SubmitSegment;
    NoAnswerNeeded(c, s, a);
  }

  lemma AllQuiet(c: Config, s: State)
    requires c.inFlight > 0 && Good(c, s) && s.totals.imgDone < c.count && s.submitter.Waiting?
    requires s.seg.Idle? && s.inf.Idle? && s.stitch.Idle?
    requires s.segTasks == multiset{} && s.infTasks == multiset{} && s.stitchTasks == multiset{}
    ensures Enabled(c, s, Acquire)
  {
    forall f | f in s.frames ensures s.frames[f].done {
      QuietFrameIsDone(c, s, f);
    }
    hide Exact, DispatchedOnce;
    DoneAreAcquired(c, s);
    assert DoneIn(s.frames) == s.frames.Keys;
    forall f: nat | f < s.next ensures f in DoneIn(s.frames) {
      InKnown(s.frames.Keys, f, KnownCount(s));
    }
    CoveringSet(DoneIn(s.frames), s.next);
    assert |AllFinishing(s)| == 0;
  }

  ghost predicate NeverStalls(run: seq<Action>) {
    forall k :: 0 <= k < |run| ==> !run[k].Stall?
  }

  lemma {:induction false} RunUsesMeasure(c: Config, s: State, run: seq<Action>)
    requires Strict(c) && Good(c, s) && IsRun(c, s, run) && NeverStalls(run)
    ensures Good(c, After(c, s, run)) && Measure(c, After(c, s, run)) + |run| <= Measure(c, s)
    ensures After(c, s, run).stalled == s.stalled
    decreases |run|
  {
    hide Conserved, Exact, Counted, Enabled, Measure;
    if run != [] {
      ActionKeeps(c, s, run[0]);
      ActionExact(c, s, run[0]);
      CountedStep(c, s, run[0]);
      MeasureFalls(c, s, run[0]);
      OnlyStallStalls(c, s, run[0]);
      RunUsesMeasure(c, Next(c, s, run[0]), run[1..]);
    }
  }

  lemma OnlyStallStalls(c: Config, s: State, a: Action)
    requires Enabled(c, s, a) && !a.Stall?
    ensures Next(c, s, a).stalled == s.stalled
  {
  }

  /** No thread can move any more; only the watchdog might still act. */
  ghost predicate Stuck(c: Config, s: State) {
    forall a :: Enabled(c, s, a) ==> a.Stall?
  }

  /** Every run without a stall and without duplicated outputs is at most as long as the initial
      measure; and where no thread can move any more, every frame is done, those with failed
      segments or tiles included, and the client has been told so. */
  lemma EveryRunFinishes(c: Config, run: seq<Action>)
    requires Strict(c) && c.inFlight > 0 && IsRun(c, Start(c), run) && NeverStalls(run)
    ensures |run| <= Measure(c, Start(c))
    ensures var s := After(c, Start(c), run);
            Stuck(c, s) ==>
              && s.totals.imgDone == c.count && (c.count > 0 ==> s.doneEvt)
              && forall f: nat :: f < c.count ==> f in s.frames && s.frames[f].done
  {
    var s := After(c, Start(c), run);
    StartGood(c);
    RunUsesMeasure(c, Start(c), run);
    MeasureNonNegative(c, s);
    DoneAreAcquired(c, s);
    if s.totals.imgDone < c.count {
      var a := SomeThreadMoves(c, s);
    }
  }
}
