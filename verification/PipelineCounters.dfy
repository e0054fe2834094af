/** What the client's counters count: every counter against the answers of the run that led to it. */
module PipelineCounters {
  import opened Pipeline
  import opened PipelineSafety
  import opened PipelineExact
  import opened PipelineProgress

  // ----- Tile and segment counters, with arbitrary duplicates

  /** How many actions of the run are of a kind. */
  ghost function Count(run: seq<Action>, kind: Action -> bool): nat {
    if run == [] then 0 else Count(run[1..], kind) + (if kind(run[0]) then 1 else 0)
  }

  predicate FailedSegment(a: Action) { a.FetchSegment? && !a.ok }

  predicate AnyTile(a: Action) { a.FetchTile? }

  predicate GoodTile(a: Action) { a.FetchTile? && a.ok }

  predicate FailedTile(a: Action) { a.FetchTile? && !a.ok }

  /** The counters after an action. */
  ghost predicate Counts(totals: Totals, a: Action, totals': Totals) {
    && totals'.segErr == totals.segErr + (if FailedSegment(a) then 1 else 0)
    && totals'.infDone == totals.infDone + (if AnyTile(a) then 1 else 0)
    && totals'.tilesOk == totals.tilesOk + (if GoodTile(a) then 1 else 0)
    && totals'.infErr == totals.infErr + (if FailedTile(a) then 1 else 0)
  }

  lemma AdvanceTotals(c: Config, s: State, f: nat, frame: Frame)
    ensures Advance(c, s, f, frame).totals == s.totals
  {
  }

  lemma TileCounts(c: Config, s: State, f: nat, t: nat, ok: bool, again: bool)
    requires Enabled(c, s, FetchTile(f, t, ok, again))
    ensures Counts(s.totals, FetchTile(f, t, ok, again), Next(c, s, FetchTile(f, t, ok, again)).totals)
  {
    hide Advance, Reply, Take;
    if f in s.frames {
      AdvanceTotals(c, s.(infTasks := Take(s.infTasks, (f, t), again), infSeen := s.infSeen + 1,
          totals := CountTile(s.totals, ok)), f, Reply(s.frames[f], t, ok));
    }
  }

  lemma MarkCounts(c: Config, s: State, thread: Thread)
    requires Enabled(c, s, Mark(thread))
    ensures Counts(s.totals, Mark(thread), Next(c, s, Mark(thread)).totals)
  {
  }

  lemma OtherCounts(c: Config, s: State, a: Action)
    requires Enabled(c, s, a) && !a.FetchTile? && !a.Mark?
    ensures Counts(s.totals, a, Next(c, s, a).totals)
  {
    hide Take;
  }

  lemma CountersStep(c: Config, s: State, a: Action)
    requires Enabled(c, s, a)
    ensures Counts(s.totals, a, Next(c, s, a).totals)
  {
    hide Enabled, Next, Counts;
    match a
    case FetchTile(f, t, ok, again) => TileCounts(c, s, f, t, ok, again);
    case Mark(thread) => MarkCounts(c, s, thread);
    case _ => OtherCounts(c, s, a);
  }

  lemma {:induction false} CountersAdd(c: Config, s: State, run: seq<Action>)
    requires IsRun(c, s, run)
    ensures var s' := After(c, s, run);
            && s'.totals.segErr == s.totals.segErr + Count(run, FailedSegment)
            && s'.totals.infDone == s.totals.infDone + Count(run, AnyTile)
            && s'.totals.tilesOk == s.totals.tilesOk + Count(run, GoodTile)
            && s'.totals.infErr == s.totals.infErr + Count(run, FailedTile)
    decreases |run|
  {
    hide Enabled, Next, FailedSegment, AnyTile, GoodTile, FailedTile;
    if run != [] {
      CountersStep(c, s, run[0]);
      CountersAdd(c, Next(c, s, run[0]), run[1..]);
    }
  }

  /** In every run, with outputs duplicated arbitrarily, the segment errors, tile replies, good tiles and
      tile errors are the numbers of such answers fetched. */
  lemma CountersCountAnswers(c: Config, run: seq<Action>)
    requires IsRun(c, Start(c), run)
    ensures var totals := After(c, Start(c), run).totals;
            && totals.segErr == Count(run, FailedSegment) && totals.infDone == Count(run, AnyTile)
            && totals.tilesOk == Count(run, GoodTile) && totals.infErr == Count(run, FailedTile)
  {
    CountersAdd(c, Start(c), run);
  }

  // ----- Frame counters, with arbitrary duplicates

  /** The action marks a frame done, after a failure or after a success. */
  predicate Marks(s: State, a: Action, failed: bool) {
    && a.Mark? && s.At(a.thread).ToFinish? && s.At(a.thread).failed == failed
    && !(s.At(a.thread).frame in s.frames && s.frames[s.At(a.thread).frame].done)
  }

  /** How many frames the run marks done after a failure, or after a success. */
  ghost function MarkCount(c: Config, s: State, run: seq<Action>, failed: bool): nat
    requires IsRun(c, s, run)
    decreases |run|
  {
    if run == [] then 0
    else MarkCount(c, Next(c, s, run[0]), run[1..], failed) + (if Marks(s, run[0], failed) then 1 else 0)
  }

  /** The frame counters after an action. */
  ghost predicate CountsFrame(s: State, a: Action, totals': Totals) {
    && totals'.imgErr == s.totals.imgErr + (if Marks(s, a, true) then 1 else 0)
    && totals'.imgDone == s.totals.imgDone + (if Marks(s, a, true) then 1 else 0)
                          + (if Marks(s, a, false) then 1 else 0)
  }

  lemma MarkCountsFrame(c: Config, s: State, thread: Thread)
    requires Enabled(c, s, Mark(thread))
    ensures CountsFrame(s, Mark(thread), Next(c, s, Mark(thread)).totals)
  {
  }

  lemma TileCountsNoFrame(c: Config, s: State, f: nat, t: nat, ok: bool, again: bool)
    requires Enabled(c, s, FetchTile(f, t, ok, again))
    ensures CountsFrame(s, FetchTile(f, t, ok, again), Next(c, s, FetchTile(f, t, ok, again)).totals)
  {
    hide Advance, Reply, Take;
    if f in s.frames {
      AdvanceTotals(c, s.(infTasks := Take(s.infTasks, (f, t), again), infSeen := s.infSeen + 1,
          totals := CountTile(s.totals, ok)), f, Reply(s.frames[f], t, ok));
    }
  }

  lemma OtherCountsNoFrame(c: Config, s: State, a: Action)
    requires Enabled(c, s, a) && !a.FetchTile? && !a.Mark?
    ensures CountsFrame(s, a, Next(c, s, a).totals)
  {
    hide Take;
  }

  lemma MarkStep(c: Config, s: State, a: Action)
    requires Enabled(c, s, a)
    ensures CountsFrame(s, a, Next(c, s, a).totals)
  {
    hide Enabled, Next, CountsFrame;
    match a
    case FetchTile(f, t, ok, again) => TileCountsNoFrame(c, s, f, t, ok, again);
    case Mark(thread) => MarkCountsFrame(c, s, thread);
    case _ => OtherCountsNoFrame(c, s, a);
  }

  lemma {:induction false} MarksAdd(c: Config, s: State, run: seq<Action>)
    requires IsRun(c, s, run)
    ensures var s' := After(c, s, run);
            && s'.totals.imgErr == s.totals.imgErr + MarkCount(c, s, run, true)
            && s'.totals.imgDone - s'.totals.imgErr
                == s.totals.imgDone - s.totals.imgErr + MarkCount(c, s, run, false)
    decreases |run|
  {
    hide Enabled, Next, Marks;
    if run != [] {
      MarkStep(c, s, run[0]);
      MarksAdd(c, Next(c, s, run[0]), run[1..]);
    }
  }

  /** In every run the error counter is the number of frames marked done after a failure, and what the
      client reports as good frames the number marked done after a success. */
  lemma ErrorsCountMarks(c: Config, run: seq<Action>)
    requires IsRun(c, Start(c), run)
    ensures var totals := After(c, Start(c), run).totals;
            && totals.imgErr == MarkCount(c, Start(c), run, true)
            && totals.imgDone - totals.imgErr == MarkCount(c, Start(c), run, false)
  {
    MarksAdd(c, Start(c), run);
  }

  // ----- Frame errors against answers, without duplicates

  /** The frame whose segment, tile or stitch output the action fetches with a failure. */
  predicate FailsFrame(a: Action, f: nat) {
    match a
    case FetchSegment(g, ok, _) => g == f && !ok
    case FetchTile(g, _, ok, _) => g == f && !ok
    case FetchStitch(g, ok, _) => g == f && !ok
    case _ => false
  }

  /** The frames for which some fetched answer of the run was a failure. */
  ghost function FailedFrames(run: seq<Action>): set<nat> {
    if run == [] then {} else FailedBy(run[0]) + FailedFrames(run[1..])
  }

  ghost function FailedBy(a: Action): set<nat> {
    if a.FetchSegment? || a.FetchTile? || a.FetchStitch? then (if a.ok then {} else {a.frame}) else {}
  }

  lemma {:induction false} FailedFramesIff(run: seq<Action>, f: nat)
    ensures f in FailedFrames(run) <==> exists k :: 0 <= k < |run| && FailsFrame(run[k], f)
  {
    if run != [] {
      FailedFramesIff(run[1..], f);
      assert f in FailedBy(run[0]) <==> FailsFrame(run[0], f);
      if k :| 0 <= k < |run| && FailsFrame(run[k], f) {
        assert k > 0 ==> run[1..][k - 1] == run[k];
      }
      if k :| 0 <= k < |run[1..]| && FailsFrame(run[1..][k], f) {
        assert run[k + 1] == run[1..][k];
      }
    }
  }

  /** A thread is about to mark the frame done after a failure. */
  predicate FailingAt(fetcher: Fetcher, f: nat) {
    fetcher.ToFinish? && fetcher.frame == f && fetcher.failed
  }

  /** The failures recorded for a frame that is not done: in its state or with the thread that found one. */
  ghost predicate Recorded(s: State, failed: set<nat>, f: nat)
    requires f in s.frames
  {
    f in failed <==> s.frames[f].err || FailingAt(s.seg, f) || FailingAt(s.stitch, f)
  }

  ghost predicate Failing(s: State) {
    && (s.seg.ToFinish? ==> s.seg.failed)
    && (s.inf.ToFinish? ==> s.inf.failed && s.inf.frame in s.frames && s.frames[s.inf.frame].err)
  }

  ghost predicate Tracked(s: State, failed: set<nat>) {
    && failed <= s.frames.Keys && Failing(s)
    && (forall f :: f in s.frames && !s.frames[f].done ==> Recorded(s, failed, f))
    && s.totals.imgErr == |DoneIn(s.frames) * failed|
  }

  /** A frame with an outstanding task is not done. */
  lemma TaskIsNotDone(c: Config, s: State, f: nat)
    requires Exact(c, s) && f in s.frames
    requires f in s.segTasks || f in s.stitchTasks || exists t: nat :: (f, t) in s.infTasks
    ensures !s.frames[f].done
  {
    if s.frames[f].done {
      DoneHasNoTasks(c, s, f);
    }
  }

  /** An action that concerns no answer, no error flag and no thread about to mark a frame. */
  lemma TrackedKept(s: State, s': State, failed: set<nat>)
    requires Tracked(s, failed) && s'.frames == s.frames && s'.totals.imgErr == s.totals.imgErr
    requires Calm(s.seg, s'.seg) && Calm(s.inf, s'.inf) && Calm(s.stitch, s'.stitch)
    ensures Tracked(s', failed)
  {
    assert forall f :: f in s.frames && !s.frames[f].done ==> Recorded(s, failed, f);
    forall f | f in s'.frames && !s'.frames[f].done ensures Recorded(s', failed, f) {
    }
  }

  predicate Calm(before: Fetcher, after: Fetcher) {
    after == before || (!before.ToFinish? && !after.ToFinish?)
  }

  lemma RemoveTracked(c: Config, s: State, thread: Thread, failed: set<nat>)
    requires Tracked(s, failed) && Enabled(c, s, Remove(thread))
    ensures Tracked(Next(c, s, Remove(thread)), failed)
  {
    hide Tracked;
    TrackedKept(s, Next(c, s, Remove(thread)), failed);
  }

  lemma ReleaseTracked(c: Config, s: State, thread: Thread, failed: set<nat>)
    requires Tracked(s, failed) && Enabled(c, s, Release(thread))
    ensures Tracked(Next(c, s, Release(thread)), failed)
  {
    hide Tracked;
    TrackedKept(s, Next(c, s, Release(thread)), failed);
  }

  lemma OtherTracked(c: Config, s: State, a: Action, failed: set<nat>)
    requires Tracked(s, failed) && Enabled(c, s, a)
    requires a.Acquire? || a.SubmitSegment? || a.WriteTiles? || a.SubmitStitch? || a.Stall?
    ensures Tracked(Next(c, s, a), failed)
  {
    hide Tracked;
    TrackedKept(s, Next(c, s, a), failed);
  }

  /** Only one frame's entry changes, and neither its error flag nor its done flag. */
  lemma EntryTracked(s: State, s': State, f: nat, frame: Frame, failed: set<nat>)
    requires Tracked(s, failed) && s'.frames == s.frames[f := frame] && s'.totals.imgErr == s.totals.imgErr
    requires Calm(s.seg, s'.seg) && s'.inf == s.inf && s'.stitch == s.stitch
    requires if f in s.frames then frame.err == s.frames[f].err && frame.done == s.frames[f].done
             else !frame.err && !frame.done && !FailingAt(s.seg, f) && !FailingAt(s.stitch, f)
    ensures Tracked(s', failed)
  {
    assert DoneIn(s'.frames) == DoneIn(s.frames);
    forall g | g in s'.frames && !s'.frames[g].done ensures Recorded(s', failed, g) {
      if g in s.frames {
        assert Recorded(s, failed, g);
      }
    }
  }

  lemma RegisterTracked(c: Config, s: State, failed: set<nat>)
    requires Tracked(s, failed) && Named(c, s) && Enabled(c, s, Register)
    ensures Tracked(Next(c, s, Register), failed)
  {
    hide Tracked, Names, NamesTiles;
    InKnown(s.frames.Keys, s.next, KnownCount(s));
    EntryTracked(s, Next(c, s, Register), s.next, NEW_FRAME, failed);
  }

  lemma SubmitTileTracked(c: Config, s: State, failed: set<nat>)
    requires Tracked(s, failed) && Exact(c, s) && Named(c, s) && Enabled(c, s, SubmitTile)
    ensures Tracked(Next(c, s, SubmitTile), failed)
  {
    hide Tracked, Exact, Names, NamesTiles, Below;
    var f := s.seg.frame;
    assert f in s.frames.Keys;
    EntryTracked(s, Next(c, s, SubmitTile), f, s.frames[f].(sent := s.seg.tile + 1), failed);
  }

  /** What an action that answers frame f has to establish. */
  lemma AnswerTracked(s: State, s': State, f: nat, failed: set<nat>, failed': set<nat>)
    requires Tracked(s, failed) && f in s.frames && s'.frames.Keys == s.frames.Keys && Failing(s')
    requires !s.frames[f].done && !s'.frames[f].done && s'.totals.imgErr == s.totals.imgErr
    requires forall g :: g in s.frames && g != f ==> s'.frames[g] == s.frames[g]
    requires forall g :: g != f ==> (g in failed' <==> g in failed)
    requires forall g :: g != f ==> FailingAt(s'.seg, g) == FailingAt(s.seg, g)
    requires forall g :: g != f ==> FailingAt(s'.stitch, g) == FailingAt(s.stitch, g)
    requires Recorded(s', failed', f)
    ensures Tracked(s', failed')
  {
    hide FailingAt;
    assert DoneIn(s'.frames) == DoneIn(s.frames);
    assert DoneIn(s.frames) * failed' == DoneIn(s.frames) * failed;
    forall g | g in s'.frames && !s'.frames[g].done ensures Recorded(s', failed', g) {
      if g != f {
        assert Recorded(s, failed, g);
      }
    }
  }

  lemma TrackedAt(s: State, failed: set<nat>, f: nat)
    requires Tracked(s, failed) && f in s.frames && !s.frames[f].done
    ensures Failing(s) && Recorded(s, failed, f)
  {
  }

  lemma FetchSegmentTracked(c: Config, s: State, f: nat, ok: bool, again: bool, failed: set<nat>)
    requires Tracked(s, failed) && Exact(c, s) && Named(c, s) && Enabled(c, s, FetchSegment(f, ok, again))
    ensures Tracked(Next(c, s, FetchSegment(f, ok, again)), failed + FailedBy(FetchSegment(f, ok, again)))
  {
    hide Tracked, Exact, NamesTiles, Below, Take;
    assert f in s.frames.Keys;
    hide Named;
    TaskIsNotDone(c, s, f);
    TrackedAt(s, failed, f);
    AnswerTracked(s, Next(c, s, FetchSegment(f, ok, again)), f, failed,
        failed + FailedBy(FetchSegment(f, ok, again)));
  }

  lemma FetchStitchTracked(c: Config, s: State, f: nat, ok: bool, again: bool, failed: set<nat>)
    requires Tracked(s, failed) && Exact(c, s) && Named(c, s) && Enabled(c, s, FetchStitch(f, ok, again))
    ensures Tracked(Next(c, s, FetchStitch(f, ok, again)), failed + FailedBy(FetchStitch(f, ok, again)))
  {
    hide Tracked, Exact, NamesTiles, Below, Take;
    assert f in s.frames.Keys;
    hide Named;
    TaskIsNotDone(c, s, f);
    TrackedAt(s, failed, f);
    AnswerTracked(s, Next(c, s, FetchStitch(f, ok, again)), f, failed, failed + FailedBy(FetchStitch(f, ok, again)));
  }

  /** Storing a tile's reply changes one frame's entry and, if it was the last, the thread. */
  lemma AdvanceEntry(c: Config, s: State, f: nat, frame: Frame)
    requires f in s.frames && s.inf.Idle?
    ensures var s' := Advance(c, s, f, frame);
            && s'.frames.Keys == s.frames.Keys && s'.totals == s.totals
            && s'.frames[f].err == frame.err && s'.frames[f].done == frame.done
            && (forall g :: g in s.frames && g != f ==> s'.frames[g] == s.frames[g])
            && s'.seg == s.seg && s'.stitch == s.stitch
            && (s'.inf.ToFinish? ==> s'.inf == ToFinish(f, true) && frame.err)
  {
  }

  lemma FetchTileTracked(c: Config, s: State, f: nat, t: nat, ok: bool, again: bool, failed: set<nat>)
    requires Tracked(s, failed) && Exact(c, s) && Named(c, s) && Enabled(c, s, FetchTile(f, t, ok, again))
    ensures Tracked(Next(c, s, FetchTile(f, t, ok, again)), failed + FailedBy(FetchTile(f, t, ok, again)))
  {
    hide Tracked, Exact, Names, Below, Take, Advance, CountTile;
    assert (f, t).0 in s.frames.Keys;
    hide Named;
    TaskIsNotDone(c, s, f);
    TrackedAt(s, failed, f);
    var taken := s.(infTasks := Take(s.infTasks, (f, t), again), infSeen := s.infSeen + 1,
        totals := CountTile(s.totals, ok));
    AdvanceEntry(c, taken, f, Reply(s.frames[f], t, ok));
    TileCountsNoFrame(c, s, f, t, ok, again);
    var s' := Next(c, s, FetchTile(f, t, ok, again));
    assert s' == Advance(c, taken, f, Reply(s.frames[f], t, ok));
    hide Next;
    AnswerTracked(s, s', f, failed, failed + FailedBy(FetchTile(f, t, ok, again)));
  }

  /** The thread is marking a known frame that is not done, says whether it has failed, and is the only
      one to finish it. */
  ghost predicate Knows(s: State, thread: Thread, failed: set<nat>) {
    && s.At(thread).ToFinish? && s.At(thread).frame in s.frames && !s.frames[s.At(thread).frame].done
    && (s.At(thread).failed <==> s.At(thread).frame in failed)
    && forall other :: other != thread && s.At(other).ToFinish? ==> s.At(other).frame != s.At(thread).frame
  }

  lemma LocalKnows(c: Config, s: State, thread: Thread, f: nat)
    requires Exact(c, s) && f in s.frames && s.At(thread).ToFinish? && s.At(thread).frame == f
    ensures !s.frames[f].done && (thread == StitchThread ==> !s.frames[f].err)
    ensures forall other :: other != thread && s.At(other).ToFinish? ==> s.At(other).frame != f
  {
    assert FrameOk(c, s, f);
    var l := LocalOf(s, f);
    assert l.At(thread) == s.At(thread);
    assert l.At(SegThread) == l.seg && l.At(InfThread) == l.inf && l.At(StitchThread) == l.stitch;
    assert s.At(SegThread) == s.seg && s.At(InfThread) == s.inf && s.At(StitchThread) == s.stitch;
  }

  /** A thread about to mark a frame done says whether the frame has failed. */
  lemma MarkedKnows(c: Config, s: State, thread: Thread, failed: set<nat>)
    requires Tracked(s, failed) && Exact(c, s) && Named(c, s) && Enabled(c, s, Mark(thread))
    ensures Knows(s, thread, failed)
  {
    hide Tracked, Exact, Names, NamesTiles, Below;
    var f := s.At(thread).frame;
    assert f in s.frames.Keys;
    hide Named;
    LocalKnows(c, s, thread, f);
    TrackedAt(s, failed, f);
    assert s.At(SegThread) == s.seg && s.At(InfThread) == s.inf && s.At(StitchThread) == s.stitch;
  }

  /** What marking frame f done has to establish. */
  lemma DoneTracked(s: State, s': State, f: nat, failed: set<nat>)
    requires Tracked(s, failed) && f in s.frames && !s.frames[f].done && Failing(s')
    requires s'.frames == s.frames[f := s.frames[f].(done := true)]
    requires s'.totals.imgErr == s.totals.imgErr + (if f in failed then 1 else 0)
    requires forall g :: g != f ==> FailingAt(s'.seg, g) == FailingAt(s.seg, g)
    requires forall g :: g != f ==> FailingAt(s'.stitch, g) == FailingAt(s.stitch, g)
    ensures Tracked(s', failed)
  {
    hide FailingAt;
    OneMoreDone(s.frames, f, s.frames[f].(done := true));
    DoneFailures(DoneIn(s.frames), failed, f);
    forall g | g in s'.frames && !s'.frames[g].done ensures Recorded(s', failed, g) {
      assert Recorded(s, failed, g);
    }
  }

  lemma MarkTracked(c: Config, s: State, thread: Thread, failed: set<nat>)
    requires Tracked(s, failed) && Exact(c, s) && Named(c, s) && Enabled(c, s, Mark(thread))
    ensures Tracked(Next(c, s, Mark(thread)), failed)
  {
    hide Tracked, Exact, Named;
    MarkedKnows(c, s, thread, failed);
    TrackedAt(s, failed, s.At(thread).frame);
    assert s.At(SegThread) == s.seg && s.At(InfThread) == s.inf && s.At(StitchThread) == s.stitch;
    DoneTracked(s, Next(c, s, Mark(thread)), s.At(thread).frame, failed);
  }

  lemma DoneFailures(done: set<nat>, failed: set<nat>, f: nat)
    requires f !in done
    ensures |(done + {f}) * failed| == |done * failed| + (if f in failed then 1 else 0)
  {
    if f in failed {
      assert (done + {f}) * failed == done * failed + {f};
    } else {
      assert (done + {f}) * failed == done * failed;
    }
  }

  lemma StepTracked(c: Config, s: State, a: Action, failed: set<nat>)
    requires Tracked(s, failed) && Exact(c, s) && Named(c, s) && Enabled(c, s, a)
    ensures Tracked(Next(c, s, a), failed + FailedBy(a))
  {
    hide Tracked, Exact, Named, Enabled, Next;
    assert !a.FetchSegment? && !a.FetchTile? && !a.FetchStitch? ==> failed + FailedBy(a) == failed;
    match a
    case Register => RegisterTracked(c, s, failed);
    case FetchSegment(f, ok, again) => FetchSegmentTracked(c, s, f, ok, again, failed);
    case SubmitTile => SubmitTileTracked(c, s, failed);
    case FetchTile(f, t, ok, again) => FetchTileTracked(c, s, f, t, ok, again, failed);
    case FetchStitch(f, ok, again) => FetchStitchTracked(c, s, f, ok, again, failed);
    case Mark(thread) => MarkTracked(c, s, thread, failed);
    case Remove(thread) => RemoveTracked(c, s, thread, failed);
    case Release(thread) => ReleaseTracked(c, s, thread, failed);
    case _ => OtherTracked(c, s, a, failed);
  }

  lemma {:induction false} RunTracked(c: Config, s: State, run: seq<Action>, failed: set<nat>)
    requires Strict(c) && Good(c, s) && Tracked(s, failed) && IsRun(c, s, run)
    ensures Tracked(After(c, s, run), failed + FailedFrames(run))
    decreases |run|
  {
    hide Tracked, Exact, Enabled, Next, FinishedOnce, DispatchedOnce, Balanced, Named, Counted;
    if run == [] {
      assert failed + FailedFrames(run) == failed;
    } else {
      StepTracked(c, s, run[0], failed);
      ActionKeeps(c, s, run[0]);
      ActionExact(c, s, run[0]);
      CountedStep(c, s, run[0]);
      RunTracked(c, Next(c, s, run[0]), run[1..], failed + FailedBy(run[0]));
      assert failed + FailedBy(run[0]) + FailedFrames(run[1..]) == failed + FailedFrames(run);
    }
  }

  /** In every run without duplicates, the error counter is the number of frames done for which some
      segment, tile or stitch answer was a failure; without any failed answer it is zero. */
  lemma ErrorsCountFailures(c: Config, run: seq<Action>)
    requires Strict(c) && IsRun(c, Start(c), run)
    ensures var s := After(c, Start(c), run);
            && s.totals.imgErr == |DoneIn(s.frames) * FailedFrames(run)|
            && ((forall k :: 0 <= k < |run| ==> forall f :: !FailsFrame(run[k], f)) ==> s.totals.imgErr == 0)
  {
    StartGood(c);
    RunTracked(c, Start(c), run, {});
    assert {} + FailedFrames(run) == FailedFrames(run);
    if forall k :: 0 <= k < |run| ==> forall f :: !FailsFrame(run[k], f) {
      forall f ensures f !in FailedFrames(run) {
        FailedFramesIff(run, f);
      }
      assert DoneIn(After(c, Start(c), run).frames) * FailedFrames(run) == {};
    }
  }

  // ----- The answers recorded for each frame

  /** The action fetches tile t of frame f, with a good answer or any. */
  predicate Answers(a: Action, f: nat, t: nat, good: bool) {
    a.FetchTile? && a.frame == f && a.tile == t && (good ==> a.ok)
  }

  /** The state has recorded such an answer. */
  ghost predicate HasAnswer(s: State, f: nat, t: nat, good: bool) {
    f in s.frames && t in if good then s.frames[f].succeeded else s.frames[f].replied
  }

  lemma AdvanceAnswers(c: Config, s: State, f: nat, t: nat, ok: bool, g: nat, u: nat, good: bool)
    requires f in s.frames
    ensures HasAnswer(Advance(c, s, f, Reply(s.frames[f], t, ok)), g, u, good)
        <==> HasAnswer(s, g, u, good) || (g == f && u == t && (good ==> ok))
  {
  }

  lemma FetchTileAnswers(c: Config, s: State, a: Action, g: nat, u: nat, good: bool)
    requires Named(c, s) && a.FetchTile? && Enabled(c, s, a)
    ensures HasAnswer(Next(c, s, a), g, u, good) <==> HasAnswer(s, g, u, good) || Answers(a, g, u, good)
  {
    hide Advance, Reply, Take, CountTile, Names, Below, Attends;
    var f, t := a.frame, a.tile;
    assert (f, t).0 in s.frames.Keys;
    hide Named;
    var taken := s.(infTasks := Take(s.infTasks, (f, t), a.again), infSeen := s.infSeen + 1,
        totals := CountTile(s.totals, a.ok));
    AdvanceAnswers(c, taken, f, t, a.ok, g, u, good);
  }

  lemma RegisterAnswers(c: Config, s: State, g: nat, u: nat, good: bool)
    requires Named(c, s) && Enabled(c, s, Register)
    ensures HasAnswer(Next(c, s, Register), g, u, good) <==> HasAnswer(s, g, u, good)
  {
    hide Names, NamesTiles, Attends;
    InKnown(s.frames.Keys, s.next, KnownCount(s));
  }

  lemma OtherAnswers(c: Config, s: State, a: Action, g: nat, u: nat, good: bool)
    requires Enabled(c, s, a) && !a.FetchTile? && !a.Register? && !a.Mark?
    ensures HasAnswer(Next(c, s, a), g, u, good) <==> HasAnswer(s, g, u, good)
  {
    hide Take;
  }

  lemma MarkAnswers(c: Config, s: State, thread: Thread, g: nat, u: nat, good: bool)
    requires Enabled(c, s, Mark(thread))
    ensures HasAnswer(Next(c, s, Mark(thread)), g, u, good) <==> HasAnswer(s, g, u, good)
  {
    MarkedFrames(c, s, thread);
    hide Next;
  }

  lemma MarkedFrames(c: Config, s: State, thread: Thread)
    requires Enabled(c, s, Mark(thread))
    ensures var f, frames := s.At(thread).frame, Next(c, s, Mark(thread)).frames;
            frames == s.frames || (f in s.frames && frames == s.frames[f := s.frames[f].(done := true)])
  {
  }

  lemma StepAnswers(c: Config, s: State, a: Action, g: nat, u: nat, good: bool)
    requires Named(c, s) && Enabled(c, s, a)
    ensures HasAnswer(Next(c, s, a), g, u, good) <==> HasAnswer(s, g, u, good) || Answers(a, g, u, good)
  {
    hide Named, Enabled, Next, HasAnswer;
    match a
    case FetchTile(_, _, _, _) => FetchTileAnswers(c, s, a, g, u, good);
    case Register => RegisterAnswers(c, s, g, u, good);
    case Mark(thread) => MarkAnswers(c, s, thread, g, u, good);
    case _ => OtherAnswers(c, s, a, g, u, good);
  }

  ghost predicate RunAnswers(run: seq<Action>, f: nat, t: nat, good: bool) {
    exists k :: 0 <= k < |run| && Answers(run[k], f, t, good)
  }

  lemma RunAnswersStep(run: seq<Action>, f: nat, t: nat, good: bool)
    requires run != []
    ensures RunAnswers(run, f, t, good) <==> Answers(run[0], f, t, good) || RunAnswers(run[1..], f, t, good)
  {
    hide Answers;
    if k :| 0 <= k < |run| && Answers(run[k], f, t, good) {
      assert k > 0 ==> run[1..][k - 1] == run[k];
    }
    if k :| 0 <= k < |run[1..]| && Answers(run[1..][k], f, t, good) {
      assert run[k + 1] == run[1..][k];
    }
  }

  lemma {:induction false} AnswersAdd(c: Config, s: State, run: seq<Action>, f: nat, t: nat, good: bool)
    requires Conserved(c, s) && IsRun(c, s, run)
    ensures HasAnswer(After(c, s, run), f, t, good) <==> HasAnswer(s, f, t, good) || RunAnswers(run, f, t, good)
    decreases |run|
  {
    hide Enabled, Next, HasAnswer, Answers, FinishedOnce, DispatchedOnce, Balanced, Named, RunAnswers;
    if run == [] {
      assert !RunAnswers(run, f, t, good) by { NoAnswers(f, t, good); }
    } else {
      StepAnswers(c, s, run[0], f, t, good);
      ActionKeeps(c, s, run[0]);
      AnswersAdd(c, Next(c, s, run[0]), run[1..], f, t, good);
      RunAnswersStep(run, f, t, good);
    }
  }

  lemma NoAnswers(f: nat, t: nat, good: bool)
    ensures !RunAnswers([], f, t, good)
  {
  }

  /** In every run, with arbitrary duplicates, a frame's recorded replies, and its recorded good ones, are
      exactly the tiles for which the run fetched an answer, or a good one. */
  lemma RecordedAnswersIff(c: Config, run: seq<Action>, f: nat, t: nat, good: bool)
    requires IsRun(c, Start(c), run)
    ensures HasAnswer(After(c, Start(c), run), f, t, good) <==> RunAnswers(run, f, t, good)
  {
    StartConserved(c);
    AnswersAdd(c, Start(c), run, f, t, good);
  }

  /** So without duplicates a stitch is sent only once the run has fetched a good answer for each tile. */
  lemma StitchHasAnswers(c: Config, run: seq<Action>, f: nat, t: nat)
    requires Strict(c) && IsRun(c, Start(c), run) && t < c.tiles
    requires var s := After(c, Start(c), run); f in s.stitchTasks || s.inf == Sending(f)
    ensures RunAnswers(run, f, t, true)
  {
    hide IsRun, After, Start;
    StitchAfterAllTiles(c, run, f);
    RecordedAnswersIff(c, run, f, t, true);
  }
}
