/** When a run that has come to rest has finished: duplicated segment outputs use up the fetch loop's
    count, and then a frame is left behind. */
module PipelineRest {
  import opened Pipeline
  import opened PipelineSafety
  import opened PipelineProgress
  import opened PipelineDuplicates

  // ----- A single frame finishes, however often its outputs are delivered

  /** The frame's tiles are answered, outstanding or still to be submitted. */
  ghost predicate TilesComing(c: Config, tasks: multiset<(nat, nat)>, seen: nat, seg: Fetcher) {
    |tasks| + seen + Unsplit(c, seg) >= c.tiles
  }

  /** A dispatched frame is done or on its way to be. */
  ghost predicate StitchComing(inf: Fetcher, tasks: multiset<nat>, stitch: Fetcher) {
    inf.ToFinish? || inf.Sending? || 0 in tasks || stitch.ToFinish?
  }

  /** What each thread never does, and how far the segment thread can be. */
  ghost predicate Roles(c: Config, s: State) {
    && !s.seg.Sending? && !s.inf.Splitting? && !s.stitch.Splitting? && !s.stitch.Sending?
    && (s.seg.Splitting? ==> s.seg.tile < c.tiles)
  }

  /** The replies counted for the frame, and where it is. */
  ghost predicate Coming(c: Config, s: State, frame: Frame) {
    && frame.got == s.infSeen && (frame.dispatched <==> frame.got >= c.tiles)
    && (frame.dispatched ==> frame.done || StitchComing(s.inf, s.stitchTasks, s.stitch))
    && (s.segSeen > 0 ==> frame.done || s.seg.ToFinish? || TilesComing(c, s.infTasks, s.infSeen, s.seg))
  }

  ghost predicate OneFrame(c: Config, s: State) {
    && c.count == 1 && c.tiles > 0 && Roles(c, s)
    && (s.next == 1 && s.segSeen == 0 ==> 0 in s.segTasks)
    && (if 0 in s.frames then Coming(c, s, s.frames[0]) else s.infSeen == 0 && s.segSeen == 0)
  }

  /** With one frame to send, every known frame is that one. */
  lemma OnlyZero(c: Config, s: State, f: nat)
    requires Named(c, s) && c.count == 1 && f in s.frames.Keys
    ensures f == 0
  {
    hide Names, NamesTiles, Attends;
    InKnown(s.frames.Keys, f, KnownCount(s));
  }

  /** An action that moves no task, no reply and no thread to or from its frame's next stage. */
  lemma OneFrameKept(c: Config, s: State, s': State)
    requires OneFrame(c, s) && s'.infTasks == s.infTasks && s'.infSeen == s.infSeen && s'.segSeen == s.segSeen
    requires s'.segTasks == s.segTasks && s'.stitchTasks == s.stitchTasks
    requires s'.next == s.next && s'.frames == s.frames
    requires Rests(s.seg, s'.seg) && Rests(s.inf, s'.inf) && Rests(s.stitch, s'.stitch)
    ensures OneFrame(c, s')
  {
  }

  /** The thread stays where it is or is past its frame's mark. */
  predicate Rests(before: Fetcher, after: Fetcher) {
    after == before || ((before.ToRemove? || before.ToRelease?) && (after.ToRelease? || after.Idle?))
  }

  lemma OneFrameRemoved(c: Config, s: State, thread: Thread)
    requires OneFrame(c, s) && Enabled(c, s, Remove(thread))
    ensures OneFrame(c, Next(c, s, Remove(thread)))
  {
    hide OneFrame;
    OneFrameKept(c, s, Next(c, s, Remove(thread)));
  }

  lemma OneFrameReleased(c: Config, s: State, thread: Thread)
    requires OneFrame(c, s) && Enabled(c, s, Release(thread))
    ensures OneFrame(c, Next(c, s, Release(thread)))
  {
    hide OneFrame;
    OneFrameKept(c, s, Next(c, s, Release(thread)));
  }

  lemma OneFrameOther(c: Config, s: State, a: Action)
    requires OneFrame(c, s) && Enabled(c, s, a) && (a.Acquire? || a.WriteTiles? || a.Stall?)
    ensures OneFrame(c, Next(c, s, a))
  {
    hide OneFrame;
    OneFrameKept(c, s, Next(c, s, a));
  }

  lemma OneFrameRegistered(c: Config, s: State)
    requires OneFrame(c, s) && Named(c, s) && Enabled(c, s, Register)
    ensures OneFrame(c, Next(c, s, Register))
  {
    hide Names, NamesTiles, Attends, TilesComing, StitchComing;
    InKnown(s.frames.Keys, 0, KnownCount(s));
    assert s.next == 0 && 0 !in s.frames;
  }

  lemma OneFrameSubmitted(c: Config, s: State)
    requires OneFrame(c, s) && Named(c, s) && Enabled(c, s, SubmitSegment)
    ensures OneFrame(c, Next(c, s, SubmitSegment))
  {
    hide Names, NamesTiles, Attends, Below;
  }

  lemma OneFrameSegment(c: Config, s: State, f: nat, ok: bool, again: bool)
    requires OneFrame(c, s) && Named(c, s) && Enabled(c, s, FetchSegment(f, ok, again))
    ensures OneFrame(c, Next(c, s, FetchSegment(f, ok, again)))
  {
    hide StitchComing, NamesTiles, Attends, Below, Take;
    assert f in s.frames.Keys;
    OnlyZero(c, s, f);
  }

  lemma OneFrameTile(c: Config, s: State)
    requires OneFrame(c, s) && Enabled(c, s, SubmitTile)
    ensures OneFrame(c, Next(c, s, SubmitTile))
  {
    hide StitchComing;
  }

  lemma OneFrameReply(c: Config, s: State, tasks: multiset<(nat, nat)>, totals: Totals, t: nat, ok: bool)
    requires OneFrame(c, s) && 0 in s.frames && s.inf.Idle? && s.infSeen < c.tiles
    requires |tasks| >= |s.infTasks| - 1
    ensures OneFrame(c, Advance(c, s.(infTasks := tasks, infSeen := s.infSeen + 1, totals := totals), 0,
        Reply(s.frames[0], t, ok)))
  {
  }

  lemma OneFrameFetched(c: Config, s: State, f: nat, t: nat, ok: bool, again: bool)
    requires OneFrame(c, s) && Named(c, s) && Enabled(c, s, FetchTile(f, t, ok, again))
    ensures OneFrame(c, Next(c, s, FetchTile(f, t, ok, again)))
  {
    hide Coming, Roles, Reply, CountTile, Advance, Names, Attends, Below;
    assert (f, t).0 in s.frames.Keys;
    OnlyZero(c, s, f);
    var tasks := Take(s.infTasks, (f, t), again);
    assert |tasks| >= |s.infTasks| - 1;
    assert s.infSeen < c.tiles;
    OneFrameReply(c, s, tasks, CountTile(s.totals, ok), t, ok);
  }

  lemma OneFrameSent(c: Config, s: State)
    requires OneFrame(c, s) && Named(c, s) && Enabled(c, s, SubmitStitch)
    ensures OneFrame(c, Next(c, s, SubmitStitch))
  {
    hide TilesComing, Names, NamesTiles, Below;
    assert s.inf.frame in s.frames.Keys;
    OnlyZero(c, s, s.inf.frame);
  }

  lemma OneFrameStitched(c: Config, s: State, f: nat, ok: bool, again: bool)
    requires OneFrame(c, s) && Enabled(c, s, FetchStitch(f, ok, again))
    ensures OneFrame(c, Next(c, s, FetchStitch(f, ok, again)))
  {
    hide TilesComing, Take;
  }

  /** A frame that has been marked done needs nothing more. */
  lemma MarkedIsDone(c: Config, s: State, s': State)
    requires OneFrame(c, s) && 0 in s.frames && 0 in s'.frames && Roles(c, s')
    requires s'.frames[0] == s.frames[0].(done := true)
    requires s'.next == s.next && s'.segSeen == s.segSeen && s'.segTasks == s.segTasks && s'.infSeen == s.infSeen
    ensures OneFrame(c, s')
  {
  }

  lemma OneFrameMarked(c: Config, s: State, thread: Thread)
    requires OneFrame(c, s) && Named(c, s) && Enabled(c, s, Mark(thread))
    ensures OneFrame(c, Next(c, s, Mark(thread)))
  {
    assert Roles(c, s);
    hide OneFrame, Names, NamesTiles, Below;
    var f, s' := s.At(thread).frame, Next(c, s, Mark(thread));
    assert f in s.frames.Keys;
    OnlyZero(c, s, f);
    hide Named;
    MarkedIsDone(c, s, s');
  }

  lemma OneFrameStep(c: Config, s: State, a: Action)
    requires OneFrame(c, s) && Named(c, s) && Enabled(c, s, a)
    ensures OneFrame(c, Next(c, s, a))
  {
    hide OneFrame, Named, Enabled, Next;
    match a
    case Register => OneFrameRegistered(c, s);
    case SubmitSegment => OneFrameSubmitted(c, s);
    case FetchSegment(f, ok, again) => OneFrameSegment(c, s, f, ok, again);
    case SubmitTile => OneFrameTile(c, s);
    case FetchTile(f, t, ok, again) => OneFrameFetched(c, s, f, t, ok, again);
    case SubmitStitch => OneFrameSent(c, s);
    case FetchStitch(f, ok, again) => OneFrameStitched(c, s, f, ok, again);
    case Mark(thread) => OneFrameMarked(c, s, thread);
    case Remove(thread) => OneFrameRemoved(c, s, thread);
    case Release(thread) => OneFrameReleased(c, s, thread);
    case _ => OneFrameOther(c, s, a);
  }

  lemma {:induction false} OneFrameRun(c: Config, s: State, run: seq<Action>)
    requires OneFrame(c, s) && Conserved(c, s) && IsRun(c, s, run)
    ensures OneFrame(c, After(c, s, run)) && Conserved(c, After(c, s, run))
    decreases |run|
  {
    hide OneFrame, Enabled, Next, FinishedOnce, DispatchedOnce, Balanced, Named;
    if run != [] {
      OneFrameStep(c, s, run[0]);
      ActionKeeps(c, s, run[0]);
      OneFrameRun(c, Next(c, s, run[0]), run[1..]);
    }
  }

  /** Where nothing can move, no thread is busy. */
  lemma ThreadsRest(c: Config, s: State)
    requires Stuck(c, s) && Roles(c, s)
    ensures s.seg.Idle? && s.inf.Idle? && s.stitch.Idle? && s.submitter.Waiting?
  {
    assert !Enabled(c, s, SubmitTile) && !Enabled(c, s, SubmitStitch);
    assert !Enabled(c, s, Register) && !Enabled(c, s, SubmitSegment);
    forall thread ensures !s.At(thread).ToFinish? && !s.At(thread).ToRemove? && !s.At(thread).ToRelease? {
      assert !Enabled(c, s, Mark(thread)) && !Enabled(c, s, Remove(thread)) && !Enabled(c, s, Release(thread));
    }
    assert s.At(SegThread) == s.seg && s.At(InfThread) == s.inf && s.At(StitchThread) == s.stitch;
  }

  /** The one frame has been sent, or could be. */
  lemma FrameIsSent(c: Config, s: State)
    requires Stuck(c, s) && Conserved(c, s) && c.count == 1 && c.inFlight > 0 && s.submitter.Waiting?
    ensures s.next == 1 && 0 in s.frames
  {
    hide FinishedOnce, DispatchedOnce, Names, NamesTiles, Attends;
    assert !Enabled(c, s, Acquire);
    InKnown(s.frames.Keys, 0, KnownCount(s));
  }

  /** At rest the frame's stitch output, or its failure, has been dealt with. */
  lemma FrameIsDone(c: Config, s: State)
    requires Stuck(c, s) && OneFrame(c, s) && s.next == 1 && 0 in s.frames
    ensures s.frames[0].done
  {
    ThreadsRest(c, s);
    assert !Enabled(c, s, FetchSegment(0, false, false)) && !Enabled(c, s, FetchStitch(0, false, false));
    if |s.infTasks| > 0 && s.infSeen < c.tiles {
      var p :| p in s.infTasks;
      assert Enabled(c, s, FetchTile(p.0, p.1, false, false));
    }
  }

  lemma OneFrameRests(c: Config, run: seq<Action>)
    requires c.count == 1 && c.tiles > 0 && c.inFlight > 0
    requires IsRun(c, Start(c), run) && Stuck(c, After(c, Start(c), run))
    ensures After(c, Start(c), run).doneEvt
  {
    var s := After(c, Start(c), run);
    assert OneFrame(c, Start(c));
    StartConserved(c);
    OneFrameRun(c, Start(c), run);
    hide Start, IsRun, After, OneFrame, FinishedOnce, DispatchedOnce, Named;
    RolesOf(c, s);
    ThreadsRest(c, s);
    FrameIsSent(c, s);
    FrameIsDone(c, s);
    assert 0 in DoneIn(s.frames);
  }

  lemma RolesOf(c: Config, s: State)
    requires OneFrame(c, s)
    ensures Roles(c, s)
  {
  }

  // ----- With two frames a repeated segment output leaves one behind

  /** Segment outputs have used up the fetch loop's count and nothing else is outstanding. */
  ghost predicate Drained(c: Config, s: State) {
    && s.segSeen >= c.count && s.seg.Idle? && s.inf.Idle? && s.stitch.Idle?
    && s.infTasks == multiset{} && s.stitchTasks == multiset{} && !s.doneEvt
    && s.next <= c.count && (!s.submitter.Waiting? ==> s.next < c.count)
  }

  /** What the submitter and the segment service can still do. */
  ghost function Remaining(c: Config, s: State): int {
    4 * (c.count - s.next) - SubmitterWeight(s.submitter) + |Unwritten(s)|
  }

  lemma DrainedStep(c: Config, s: State, a: Action)
    requires Drained(c, s) && Enabled(c, s, a) && !a.Stall?
    ensures Drained(c, Next(c, s, a)) && 0 <= Remaining(c, Next(c, s, a)) < Remaining(c, s)
  {
    assert a.Acquire? || a.Register? || a.SubmitSegment? || a.WriteTiles?;
    if a.SubmitSegment? {
      UnwrittenAdds(s, s.next);
    } else if a.WriteTiles? {
      assert Unwritten(Next(c, s, a)) == Unwritten(s) - {a.frame};
      assert a.frame in Unwritten(s);
    } else {
      SameUnwritten(s, Next(c, s, a));
    }
  }

  lemma {:induction false} DrainedRests(c: Config, s: State) returns (run: seq<Action>)
    requires Drained(c, s)
    ensures IsRun(c, s, run) && NeverStalls(run) && Stuck(c, After(c, s, run)) && !After(c, s, run).doneEvt
    decreases Remaining(c, s)
  {
    hide Enabled, Next, Remaining, Drained;
    if a :| Enabled(c, s, a) && !a.Stall? {
      DrainedStep(c, s, a);
      var rest := DrainedRests(c, Next(c, s, a));
      OneAction(c, s, a, rest);
      run := [a] + rest;
    } else {
      run := [];
      NotSet(c, s);
    }
  }

  lemma NotSet(c: Config, s: State)
    requires Drained(c, s)
    ensures !s.doneEvt
  {
  }

  /** Frame 0 has failed, its failure has been delivered j times, and the segment thread is at seg. */
  ghost predicate FailedTimes(c: Config, s: State, j: nat, seg: Fetcher) {
    && s.segSeen == j && s.seg == seg && s.inf.Idle? && s.stitch.Idle? && s.submitter.Waiting? && s.next == 1
    && 0 in s.segTasks && 0 in s.frames && s.frames[0].done
    && s.infTasks == multiset{} && s.stitchTasks == multiset{} && !s.doneEvt
  }

  const FAIL := [FAILED_AGAIN, Mark(SegThread)]
  const CLEAN := [Remove(SegThread), Release(SegThread)]

  lemma FirstFailure(c: Config, s: State)
    requires c.duplicates && c.count > 1 && c.inFlight > 0 && s == FrameSent(c)
    ensures IsRun(c, s, FAIL) && FailedTimes(c, After(c, s, FAIL), 1, ToRemove(0))
  {
    var s1 := Next(c, s, FAILED_AGAIN);
    OneAction(c, s1, Mark(SegThread), []);
    OneAction(c, s, FAILED_AGAIN, [Mark(SegThread)]);
  }

  lemma Cleaned(c: Config, s: State, j: nat)
    requires FailedTimes(c, s, j, ToRemove(0))
    ensures IsRun(c, s, CLEAN) && FailedTimes(c, After(c, s, CLEAN), j, Idle)
  {
    var s1 := Next(c, s, Remove(SegThread));
    OneAction(c, s1, Release(SegThread), []);
    OneAction(c, s, Remove(SegThread), [Release(SegThread)]);
  }

  ghost function Failures(k: nat): seq<Action> {
    if k == 0 then [] else FAIL + Failures(k - 1)
  }

  lemma {:induction false} FailuresUseUpTheCount(c: Config, s: State, j: nat)
    requires c.duplicates && j <= c.count && FailedTimes(c, s, j, Idle)
    ensures var run := Failures(c.count - j); IsRun(c, s, run) && FailedTimes(c, After(c, s, run), c.count, Idle)
    ensures NeverStalls(Failures(c.count - j))
    decreases c.count - j
  {
    if j < c.count {
      var s1 := Next(c, s, FAILED_AGAIN);
      var s2 := Next(c, s1, Mark(SegThread));
      assert FailedTimes(c, s2, j + 1, Idle);
      hide Next, Enabled, FailedTimes;
      FailuresUseUpTheCount(c, s2, j + 1);
      var rest := Failures(c.count - j - 1);
      OneAction(c, s1, Mark(SegThread), rest);
      OneAction(c, s, FAILED_AGAIN, [Mark(SegThread)] + rest);
      assert FAIL + rest == [FAILED_AGAIN] + ([Mark(SegThread)] + rest);
    }
  }

  lemma FailuresDrain(c: Config, s: State)
    requires c.count > 0 && FailedTimes(c, s, c.count, Idle)
    ensures Drained(c, s)
  {
  }

  lemma RepeatsLeaveFrameBehind(c: Config) returns (run: seq<Action>)
    requires c.duplicates && c.count > 1 && c.inFlight > 0
    ensures IsRun(c, Start(c), run) && NeverStalls(run)
    ensures Stuck(c, After(c, Start(c), run)) && !After(c, Start(c), run).doneEvt
  {
    hide Next, Enabled, IsRun, After, Start, FailedTimes, Drained, Stuck, Failures;
    FirstRuns(c);
    FirstFailure(c, FrameSent(c));
    var failed := After(c, FrameSent(c), FAIL);
    Cleaned(c, failed, 1);
    var s := After(c, failed, CLEAN);
    FailuresUseUpTheCount(c, s, 1);
    var failures := Failures(c.count - 1);
    var s' := After(c, s, failures);
    FailuresDrain(c, s');
    var rest := DrainedRests(c, s');
    RunThen(c, s, failures, rest);
    RunThen(c, failed, CLEAN, failures + rest);
    RunThen(c, FrameSent(c), FAIL, CLEAN + (failures + rest));
    RunThen(c, Start(c), FIRST, FAIL + (CLEAN + (failures + rest)));
    run := FIRST + (FAIL + (CLEAN + (failures + rest)));
  }

  // ----- Both together

  lemma SentRests(c: Config, run: seq<Action>)
    requires c.tiles > 0 && c.count > 0 && c.inFlight > 0 && (!c.duplicates || c.count == 1)
    requires IsRun(c, Start(c), run) && NeverStalls(run) && Stuck(c, After(c, Start(c), run))
    ensures After(c, Start(c), run).doneEvt
  {
    hide Start, IsRun, After, Stuck;
    if c.duplicates {
      OneFrameRests(c, run);
    } else {
      EveryRunFinishes(c, run);
    }
  }

  /** Without stalls, every run that has come to rest has set the event if and only if there is a frame
      to send, a permit to send it under, and either no output is delivered twice or there is only that
      one frame. */
  lemma EventIsSetIff(c: Config)
    requires c.tiles > 0
    ensures (forall run :: IsRun(c, Start(c), run) && NeverStalls(run) && Stuck(c, After(c, Start(c), run)) ==>
              After(c, Start(c), run).doneEvt)
            <==> c.count > 0 && c.inFlight > 0 && (!c.duplicates || c.count == 1)
  {
    if c.count == 0 || c.inFlight == 0 {
      var none: seq<Action> := [];
      assert IsRun(c, Start(c), none) && NeverStalls(none) && After(c, Start(c), none) == Start(c);
      assert Stuck(c, Start(c));
    } else if c.duplicates && c.count > 1 {
      hide Start, IsRun, After, Stuck;
      var run := RepeatsLeaveFrameBehind(c);
    } else {
      forall run | IsRun(c, Start(c), run) && NeverStalls(run) && Stuck(c, After(c, Start(c), run))
        ensures After(c, Start(c), run).doneEvt
      {
        SentRests(c, run);
      }
    }
  }
}
