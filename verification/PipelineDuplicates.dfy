/** Exactly when the stitch and removal guarantees hold: `got` counts replies, not tiles, and a task
    whose output is delivered twice is still outstanding after the first time. */
module PipelineDuplicates {
  import opened Pipeline
  import opened PipelineSafety
  import opened PipelineProgress

  /** A stitch task is sent only for frames whose every tile was answered successfully. */
  ghost predicate StitchesComplete(c: Config, s: State) {
    s.inf.Sending? ==> s.inf.frame in s.frames && forall t: nat :: t < c.tiles ==> t in s.frames[s.inf.frame].succeeded
  }

  const AGAIN := FetchTile(0, 0, true, true)

  ghost function Repeats(k: nat): seq<Action> {
    if k == 0 then [] else [AGAIN] + Repeats(k - 1)
  }

  /** Frame 0 after j replies, all of them for tile 0. */
  ghost predicate OnlyFirstTile(c: Config, s: State, j: nat) {
    && 0 in s.frames && s.frames[0].got == j && !s.frames[0].err && s.frames[0].succeeded <= {0}
    && s.infSeen == j && (0, 0) in s.infTasks
    && (if j < c.tiles then s.inf.Idle? && !s.frames[0].dispatched else s.inf == Sending(0))
  }

  lemma {:induction false} RepeatsReachStitch(c: Config, s: State, j: nat)
    requires c.duplicates && c.count > 0 && j <= c.tiles && OnlyFirstTile(c, s, j)
    ensures IsRun(c, s, Repeats(c.tiles - j)) && OnlyFirstTile(c, After(c, s, Repeats(c.tiles - j)), c.tiles)
    decreases c.tiles - j
  {
    if j < c.tiles {
      assert c.tiles <= c.count * c.tiles;
      var s' := Next(c, s, AGAIN);
      assert OnlyFirstTile(c, s', j + 1);
      RepeatsReachStitch(c, s', j + 1);
      assert Repeats(c.tiles - j)[1..] == Repeats(c.tiles - j - 1);
    }
  }

  lemma {:induction false} RunThen(c: Config, s: State, first: seq<Action>, second: seq<Action>)
    requires IsRun(c, s, first) && IsRun(c, After(c, s, first), second)
    ensures IsRun(c, s, first + second) && After(c, s, first + second) == After(c, After(c, s, first), second)
    decreases |first|
  {
    hide Enabled, Next;
    if first == [] {
      assert first + second == second;
    } else {
      RunThen(c, Next(c, s, first[0]), first[1..], second);
      assert (first + second)[1..] == first[1..] + second;
    }
  }

  const FIRST := [Acquire, Register, SubmitSegment]
  const SECOND := [WriteTiles(0), FetchSegment(0, true, false), SubmitTile]

  /** The state with frame 0 sent to the segment service. */
  function FrameSent(c: Config): State
    requires c.inFlight > 0
  {
    Start(c).(permits := c.inFlight - 1, frames := map[0 := NEW_FRAME], segTasks := multiset{0}, next := 1)
  }

  lemma FirstRuns(c: Config)
    requires c.count > 0 && c.inFlight > 0
    ensures IsRun(c, Start(c), FIRST) && After(c, Start(c), FIRST) == FrameSent(c)
  {
    var s0 := Start(c);
    var s1 := Next(c, s0, Acquire);
    var s2 := Next(c, s1, Register);
    OneAction(c, s2, SubmitSegment, []);
    OneAction(c, s1, Register, [SubmitSegment]);
    OneAction(c, s0, Acquire, [Register, SubmitSegment]);
    assert Next(c, s2, SubmitSegment) == FrameSent(c);
  }

  lemma SecondRuns(c: Config, s: State)
    requires c.tiles > 1 && c.count > 0 && c.inFlight > 0 && s == FrameSent(c)
    ensures IsRun(c, s, SECOND) && OnlyFirstTile(c, After(c, s, SECOND), 0)
  {
    var s1 := Next(c, s, WriteTiles(0));
    var s2 := Next(c, s1, FetchSegment(0, true, false));
    OneAction(c, s2, SubmitTile, []);
    OneAction(c, s1, FetchSegment(0, true, false), [SubmitTile]);
    OneAction(c, s, WriteTiles(0), [FetchSegment(0, true, false), SubmitTile]);
    assert OnlyFirstTile(c, Next(c, s2, SubmitTile), 0);
  }

  lemma OneAction(c: Config, s: State, a: Action, rest: seq<Action>)
    requires Enabled(c, s, a) && IsRun(c, Next(c, s, a), rest)
    ensures IsRun(c, s, [a] + rest) && After(c, s, [a] + rest) == After(c, Next(c, s, a), rest)
  {
    assert ([a] + rest)[1..] == rest;
  }

  // ----- At most one tile: a first reply is a reply for every tile

  /** With at most one tile, what is outstanding or about to be sent names an existing tile, and a
      frame about to be stitched has its tile. */
  ghost predicate OneTile(c: Config, s: State) {
    && c.tiles <= 1
    && (forall p :: p in s.infTasks ==> p.1 < c.tiles)
    && (s.seg.Splitting? ==> s.seg.tile < c.tiles)
    && !s.inf.Splitting? && !s.stitch.Splitting?
    && StitchesComplete(c, s)
  }

  /** The thread has not been given a frame to split or to send on. */
  predicate Calmed(before: Fetcher, after: Fetcher) {
    after == before || (!after.Splitting? && !after.Sending?)
  }

  /** What neither sends tiles nor loses successes keeps the single tile's bookkeeping. */
  lemma OneTileKept(c: Config, s: State, s': State)
    requires OneTile(c, s) && s'.infTasks == s.infTasks
    requires Calmed(s.seg, s'.seg) && Calmed(s.inf, s'.inf) && Calmed(s.stitch, s'.stitch)
    requires forall f :: f in s.frames ==> f in s'.frames && s'.frames[f].succeeded == s.frames[f].succeeded
    ensures OneTile(c, s')
  {
  }

  /** The first successful reply covers every tile there is. */
  lemma OneTileAdvance(c: Config, s: State, f: nat, t: nat, ok: bool)
    requires c.tiles <= 1 && t < c.tiles && f in s.frames && s.inf.Idle?
    ensures var s' := Advance(c, s, f, Reply(s.frames[f], t, ok));
            StitchesComplete(c, s') && !s'.inf.Splitting? && s'.infTasks == s.infTasks && s'.seg == s.seg
            && s'.stitch == s.stitch
  {
  }

  lemma OneTileFetched(c: Config, s: State, f: nat, t: nat, ok: bool, again: bool)
    requires OneTile(c, s) && Named(c, s) && Enabled(c, s, FetchTile(f, t, ok, again))
    ensures OneTile(c, Next(c, s, FetchTile(f, t, ok, again)))
  {
    hide CountTile, Reply, Advance, StitchesComplete, Below, Names, Attends;
    assert (f, t).0 in s.frames.Keys && (f, t).1 < c.tiles;
    var taken := s.(infTasks := Take(s.infTasks, (f, t), again), infSeen := s.infSeen + 1,
        totals := CountTile(s.totals, ok));
    OneTileAdvance(c, taken, f, t, ok);
  }

  lemma OneTileMarked(c: Config, s: State, thread: Thread)
    requires OneTile(c, s) && Enabled(c, s, Mark(thread))
    ensures OneTile(c, Next(c, s, Mark(thread)))
  {
    hide OneTile;
    OneTileKept(c, s, Next(c, s, Mark(thread)));
  }

  lemma OneTileRemoved(c: Config, s: State, thread: Thread)
    requires OneTile(c, s) && Enabled(c, s, Remove(thread))
    ensures OneTile(c, Next(c, s, Remove(thread)))
  {
    hide OneTile;
    OneTileKept(c, s, Next(c, s, Remove(thread)));
  }

  lemma OneTileReleased(c: Config, s: State, thread: Thread)
    requires OneTile(c, s) && Enabled(c, s, Release(thread))
    ensures OneTile(c, Next(c, s, Release(thread)))
  {
    hide OneTile;
    OneTileKept(c, s, Next(c, s, Release(thread)));
  }

  lemma OneTileSubmitted(c: Config, s: State)
    requires OneTile(c, s) && Enabled(c, s, SubmitTile)
    ensures OneTile(c, Next(c, s, SubmitTile))
  {
    var f, t := s.seg.frame, s.seg.tile;
    var s' := Next(c, s, SubmitTile);
    assert s'.seg.Idle? && s'.infTasks == s.infTasks + multiset{(f, t)};
    assert s'.inf == s.inf && s'.stitch == s.stitch;
    hide Next;
  }

  lemma OneTileRegistered(c: Config, s: State)
    requires OneTile(c, s) && Named(c, s) && Enabled(c, s, Register)
    ensures OneTile(c, Next(c, s, Register))
  {
    hide OneTile;
    assert s.next !in s.frames.Keys;
    OneTileKept(c, s, Next(c, s, Register));
  }

  lemma OneTileSplit(c: Config, s: State, f: nat, ok: bool, again: bool)
    requires OneTile(c, s) && Enabled(c, s, FetchSegment(f, ok, again))
    ensures OneTile(c, Next(c, s, FetchSegment(f, ok, again)))
  {
    hide StitchesComplete, Take;
    var s' := Next(c, s, FetchSegment(f, ok, again));
    assert s'.frames == s.frames && s'.inf == s.inf;
    assert StitchesComplete(c, s') by { SameStitches(c, s, s'); }
  }

  lemma SameStitches(c: Config, s: State, s': State)
    requires StitchesComplete(c, s) && s'.frames == s.frames && s'.inf == s.inf
    ensures StitchesComplete(c, s')
  {
  }

  lemma OneTileOther(c: Config, s: State, a: Action)
    requires OneTile(c, s) && Enabled(c, s, a)
    requires a.Acquire? || a.SubmitSegment? || a.WriteTiles? || a.SubmitStitch? || a.FetchStitch? || a.Stall?
    ensures OneTile(c, Next(c, s, a))
  {
    hide OneTile;
    OneTileKept(c, s, Next(c, s, a));
  }

  lemma OneTileStep(c: Config, s: State, a: Action)
    requires OneTile(c, s) && Named(c, s) && Enabled(c, s, a)
    ensures OneTile(c, Next(c, s, a))
  {
    hide OneTile, Named, Enabled, Next;
    match a
    case FetchTile(f, t, ok, again) => OneTileFetched(c, s, f, t, ok, again);
    case Mark(thread) => OneTileMarked(c, s, thread);
    case SubmitTile => OneTileSubmitted(c, s);
    case Register => OneTileRegistered(c, s);
    case FetchSegment(f, ok, again) => OneTileSplit(c, s, f, ok, again);
    case Remove(thread) => OneTileRemoved(c, s, thread);
    case Release(thread) => OneTileReleased(c, s, thread);
    case _ => OneTileOther(c, s, a);
  }

  lemma {:induction false} OneTileRun(c: Config, s: State, run: seq<Action>)
    requires OneTile(c, s) && Conserved(c, s) && IsRun(c, s, run)
    ensures OneTile(c, After(c, s, run))
    decreases |run|
  {
    hide OneTile, Enabled, Next, FinishedOnce, DispatchedOnce, Balanced, Named;
    if run != [] {
      OneTileStep(c, s, run[0]);
      ActionKeeps(c, s, run[0]);
      OneTileRun(c, Next(c, s, run[0]), run[1..]);
    }
  }

  /** Without a frame to send or a permit to send it under, only the watchdog can act. */
  lemma {:induction false} NothingSent(c: Config, s: State, run: seq<Action>)
    requires c.count == 0 || c.inFlight == 0
    requires s.(doneEvt := false, stalled := false) == Start(c) && IsRun(c, s, run)
    ensures StitchesComplete(c, After(c, s, run))
    decreases |run|
  {
    if run != [] {
      assert run[0].Stall?;
      NothingSent(c, Next(c, s, run[0]), run[1..]);
    }
  }

  /** With duplicates and two or more tiles, replies for tile 0 alone lead to a stitch. */
  lemma RepeatsSendStitch(c: Config) returns (run: seq<Action>)
    requires c.duplicates && c.tiles > 1 && c.count > 0 && c.inFlight > 0
    ensures IsRun(c, Start(c), run) && !StitchesComplete(c, After(c, Start(c), run))
  {
    hide Next, Enabled, IsRun, After, Start;
    FirstRuns(c);
    SecondRuns(c, FrameSent(c));
    var s := After(c, FrameSent(c), SECOND);
    RepeatsReachStitch(c, s, 0);
    RunThen(c, FrameSent(c), SECOND, Repeats(c.tiles));
    RunThen(c, Start(c), FIRST, SECOND + Repeats(c.tiles));
    run := FIRST + (SECOND + Repeats(c.tiles));
    assert 1 !in After(c, Start(c), run).frames[0].succeeded;
  }

  /** Stitches are complete in every run exactly when no output is delivered twice, or there is at
      most one tile, or no frame is ever sent. */
  lemma StitchesCompleteIff(c: Config)
    ensures (forall run :: IsRun(c, Start(c), run) ==> StitchesComplete(c, After(c, Start(c), run)))
            <==> !c.duplicates || c.tiles <= 1 || c.count == 0 || c.inFlight == 0
  {
    if c.duplicates && c.tiles > 1 && c.count > 0 && c.inFlight > 0 {
      var run := RepeatsSendStitch(c);
    } else {
      forall run | IsRun(c, Start(c), run) ensures StitchesComplete(c, After(c, Start(c), run)) {
        RunComplete(c, run);
      }
    }
  }

  lemma RunComplete(c: Config, run: seq<Action>)
    requires !c.duplicates || c.tiles <= 1 || c.count == 0 || c.inFlight == 0
    requires IsRun(c, Start(c), run)
    ensures StitchesComplete(c, After(c, Start(c), run))
  {
    hide IsRun, After;
    if c.count == 0 || c.inFlight == 0 {
      NothingSent(c, Start(c), run);
    } else if c.tiles <= 1 {
      StartConserved(c);
      OneTileRun(c, Start(c), run);
    } else {
      var s := After(c, Start(c), run);
      if s.inf.Sending? {
        StitchAfterAllTiles(c, run, s.inf.frame);
      }
    }
  }

  // ----- Removing a directory

  /** No outstanding task of any stage names the frame. */
  ghost predicate Unnamed(s: State, f: nat) {
    f !in s.segTasks && f !in s.stitchTasks && forall t: nat :: (f, t) !in s.infTasks
  }

  /** A segment reply that fails and will be delivered again. */
  const FAILED_AGAIN := FetchSegment(0, false, true)

  lemma RepeatedIsOutstanding(c: Config) returns (run: seq<Action>)
    requires c.duplicates && c.count > 0 && c.inFlight > 0
    ensures IsRun(c, Start(c), run)
    ensures var s := After(c, Start(c), run);
            Enabled(c, s, Remove(SegThread)) && !Unnamed(s, s.At(SegThread).frame)
  {
    var s := FrameSent(c);
    var s1 := Next(c, s, FAILED_AGAIN);
    var s2 := Next(c, s1, Mark(SegThread));
    OneAction(c, s1, Mark(SegThread), []);
    OneAction(c, s, FAILED_AGAIN, [Mark(SegThread)]);
    assert s2.seg == ToRemove(0) && 0 in s2.segTasks;
    hide Next, Enabled, IsRun, After, Start;
    FirstRuns(c);
    RunThen(c, Start(c), FIRST, [FAILED_AGAIN, Mark(SegThread)]);
    run := FIRST + [FAILED_AGAIN, Mark(SegThread)];
  }

  lemma {:induction false} NothingRemoved(c: Config, s: State, run: seq<Action>, thread: Thread)
    requires c.count == 0 || c.inFlight == 0
    requires s.(doneEvt := false, stalled := false) == Start(c) && IsRun(c, s, run)
    ensures !Enabled(c, After(c, s, run), Remove(thread))
    decreases |run|
  {
    if run != [] {
      assert run[0].Stall?;
      NothingRemoved(c, Next(c, s, run[0]), run[1..], thread);
    }
  }

  /** Whenever a directory is removed, in every run, nothing naming its frame is outstanding: exactly
      when no output is delivered twice or no frame is ever sent. */
  lemma RemovalIsSafeIff(c: Config)
    requires c.tiles > 0
    ensures (forall run, thread | IsRun(c, Start(c), run) && Enabled(c, After(c, Start(c), run), Remove(thread)) ::
              Unnamed(After(c, Start(c), run), After(c, Start(c), run).At(thread).frame))
            <==> !c.duplicates || c.count == 0 || c.inFlight == 0
  {
    if c.duplicates && c.count > 0 && c.inFlight > 0 {
      var run := RepeatedIsOutstanding(c);
    } else {
      forall run, thread | IsRun(c, Start(c), run) && Enabled(c, After(c, Start(c), run), Remove(thread))
        ensures Unnamed(After(c, Start(c), run), After(c, Start(c), run).At(thread).frame)
      {
        if c.count == 0 || c.inFlight == 0 {
          NothingRemoved(c, Start(c), run, thread);
        } else {
          RemovalIsSafe(c, run, thread);
        }
      }
    }
  }
}
