/** Conservation laws of the pipeline that hold even when task outputs are duplicated. */
module PipelineSafety {
  import opened Cardinality
  import opened Pipeline

  // ----- Effects of one update on one component

  lemma TakeNames(tasks: multiset<nat>, f: nat, again: bool, known: set<nat>)
    requires Names(tasks, known) && f in tasks
    ensures f in known && Names(Take(tasks, f, again), known)
  {
  }

  lemma TakeNamesTiles(tasks: multiset<(nat, nat)>, p: (nat, nat), again: bool, known: set<nat>)
    requires NamesTiles(tasks, known) && p in tasks
    ensures p.0 in known && NamesTiles(Take(tasks, p, again), known)
  {
  }

  lemma AddNames(tasks: multiset<nat>, f: nat, known: set<nat>)
    requires Names(tasks, known) && f in known
    ensures Names(tasks + multiset{f}, known)
  {
  }

  lemma AddNamesTiles(tasks: multiset<(nat, nat)>, p: (nat, nat), known: set<nat>)
    requires NamesTiles(tasks, known) && p.0 in known
    ensures NamesTiles(tasks + multiset{p}, known)
  {
  }

  lemma MoreKnown(s: State, f: nat)
    ensures Names(s.segTasks, s.frames.Keys) ==> Names(s.segTasks, s.frames.Keys + {f})
    ensures Names(s.stitchTasks, s.frames.Keys) ==> Names(s.stitchTasks, s.frames.Keys + {f})
    ensures NamesTiles(s.infTasks, s.frames.Keys) ==> NamesTiles(s.infTasks, s.frames.Keys + {f})
    ensures Below(s.frames.Keys, f) ==> Below(s.frames.Keys + {f}, f + 1)
  {
  }

  lemma KeysAfter(frames: map<nat, Frame>, f: nat, frame: Frame)
    ensures frames[f := frame].Keys == frames.Keys + {f}
    ensures f in frames ==> frames[f := frame].Keys == frames.Keys
  {
  }

  lemma SameDone(frames: map<nat, Frame>, f: nat, frame: Frame)
    requires frame.done <==> f in frames && frames[f].done
    ensures DoneIn(frames[f := frame]) == DoneIn(frames)
  {
  }

  lemma SameDispatched(frames: map<nat, Frame>, f: nat, frame: Frame)
    requires frame.dispatched <==> f in frames && frames[f].dispatched
    ensures DispatchedIn(frames[f := frame]) == DispatchedIn(frames)
  {
  }

  lemma OneMoreDone(frames: map<nat, Frame>, f: nat, frame: Frame)
    requires f in frames && !frames[f].done && frame.done
    ensures f !in DoneIn(frames) && DoneIn(frames[f := frame]) == DoneIn(frames) + {f}
    ensures |DoneIn(frames[f := frame])| == |DoneIn(frames)| + 1
  {
    assert DoneIn(frames[f := frame]) == DoneIn(frames) + {f};
  }

  lemma OneMoreDispatched(frames: map<nat, Frame>, f: nat, frame: Frame)
    requires f in frames && !frames[f].dispatched && frame.dispatched
    ensures f !in DispatchedIn(frames) && DispatchedIn(frames[f := frame]) == DispatchedIn(frames) + {f}
  {
  }

  lemma AddToMultiset(s: set<nat>, f: nat)
    requires f !in s
    ensures multiset(s + {f}) == multiset(s) + multiset{f}
  {
  }

  /** Without a change to the finishing threads, the releases or the done frames nothing moves. */
  lemma FinishedUnmoved(s: State, s': State)
    requires FinishedOnce(s) && s'.released == s.released && DoneIn(s'.frames) == DoneIn(s.frames)
    requires Finishing(s'.seg) == Finishing(s.seg) && Finishing(s'.inf) == Finishing(s.inf)
        && Finishing(s'.stitch) == Finishing(s.stitch)
    ensures FinishedOnce(s')
  {
  }

  lemma FinishedMoved(s: State, s': State, thread: Thread)
    requires FinishedOnce(s)
    requires forall other :: other != thread ==> s'.At(other) == s.At(other)
    requires s'.released + Finishing(s'.At(thread)) + multiset(DoneIn(s.frames))
        == s.released + Finishing(s.At(thread)) + multiset(DoneIn(s'.frames))
    ensures FinishedOnce(s')
  {
    hide Finishing, DoneIn;
    ThreadSwap(s, s', thread);
    Exchange(s.released, s'.released, Finishing(s.At(thread)), Finishing(s'.At(thread)), multiset(DoneIn(s.frames)),
        multiset(DoneIn(s'.frames)), AllFinishing(s), AllFinishing(s'));
  }

  /** Only the moving thread's share of the sum changes. */
  lemma ThreadSwap(s: State, s': State, thread: Thread)
    requires forall other :: other != thread ==> s'.At(other) == s.At(other)
    ensures AllFinishing(s) + Finishing(s'.At(thread)) == AllFinishing(s') + Finishing(s.At(thread))
  {
    hide Finishing;
    assert s'.seg == s'.At(SegThread) && s'.inf == s'.At(InfThread) && s'.stitch == s'.At(StitchThread);
    assert s.seg == s.At(SegThread) && s.inf == s.At(InfThread) && s.stitch == s.At(StitchThread);
  }

  lemma Exchange(r: multiset<nat>, r': multiset<nat>, x: multiset<nat>, x': multiset<nat>, d: multiset<nat>,
      d': multiset<nat>, all: multiset<nat>, all': multiset<nat>)
    requires r + all == d && all + x' == all' + x && r' + x' + d == r + x + d'
    ensures r' + all' == d'
  {
    forall f: nat ensures (r' + all')[f] == d'[f] {
      assert (r + all)[f] == d[f];
      assert (all + x')[f] == (all' + x)[f];
      assert (r' + x' + d)[f] == (r + x + d')[f];
    }
  }

  // ----- Each action keeps the conservation laws

  lemma AcquireKeeps(c: Config, s: State)
    requires Conserved(c, s) && Enabled(c, s, Acquire)
    ensures Conserved(c, Next(c, s, Acquire))
  {
    hide Names, NamesTiles, Below, DoneIn, DispatchedIn, FinishedOnce, Finishing;
    FinishedUnmoved(s, Next(c, s, Acquire));
  }

  lemma RegisterKeeps(c: Config, s: State)
    requires Conserved(c, s) && Enabled(c, s, Register)
    ensures Conserved(c, Next(c, s, Register))
  {
    hide Names, NamesTiles, Below, DoneIn, DispatchedIn, FinishedOnce, Finishing;
    KeysAfter(s.frames, s.next, NEW_FRAME);
    InKnown(s.frames.Keys, s.next, s.next);
    SameDone(s.frames, s.next, NEW_FRAME);
    SameDispatched(s.frames, s.next, NEW_FRAME);
    MoreKnown(s, s.next);
    FinishedUnmoved(s, Next(c, s, Register));
  }

  lemma SubmitSegmentKeeps(c: Config, s: State)
    requires Conserved(c, s) && Enabled(c, s, SubmitSegment)
    ensures Conserved(c, Next(c, s, SubmitSegment))
  {
    hide Names, NamesTiles, Below, DoneIn, DispatchedIn, FinishedOnce, Finishing;
    InKnown(s.frames.Keys, s.next, s.next + 1);
    AddNames(s.segTasks, s.next, s.frames.Keys);
    FinishedUnmoved(s, Next(c, s, SubmitSegment));
  }

  lemma WriteTilesKeeps(c: Config, s: State, f: nat)
    requires Conserved(c, s) && Enabled(c, s, WriteTiles(f))
    ensures Conserved(c, Next(c, s, WriteTiles(f)))
  {
    hide Names, NamesTiles, Below, DoneIn, DispatchedIn, FinishedOnce, Finishing;
    FinishedUnmoved(s, Next(c, s, WriteTiles(f)));
  }

  lemma FetchSegmentKeeps(c: Config, s: State, f: nat, ok: bool, again: bool)
    requires Conserved(c, s) && Enabled(c, s, FetchSegment(f, ok, again))
    ensures Conserved(c, Next(c, s, FetchSegment(f, ok, again)))
  {
    hide Names, NamesTiles, Below, DoneIn, DispatchedIn, FinishedOnce, Finishing;
    TakeNames(s.segTasks, f, again, s.frames.Keys);
    Quiet(s.seg, Next(c, s, FetchSegment(f, ok, again)).seg);
    FinishedUnmoved(s, Next(c, s, FetchSegment(f, ok, again)));
  }

  lemma SubmitTileKeeps(c: Config, s: State)
    requires Conserved(c, s) && Enabled(c, s, SubmitTile)
    ensures Conserved(c, Next(c, s, SubmitTile))
  {
    hide Names, NamesTiles, Below, DoneIn, DispatchedIn, FinishedOnce, Finishing;
    var f, frame := s.seg.frame, s.frames[s.seg.frame].(sent := s.seg.tile + 1);
    KeysAfter(s.frames, f, frame);
    SameDone(s.frames, f, frame);
    SameDispatched(s.frames, f, frame);
    AddNamesTiles(s.infTasks, (f, s.seg.tile), s.frames.Keys);
    Quiet(s.seg, Next(c, s, SubmitTile).seg);
    FinishedUnmoved(s, Next(c, s, SubmitTile));
  }

  lemma AdvanceKeeps(c: Config, s: State, f: nat, frame: Frame)
    requires Conserved(c, s) && s.inf.Idle? && f in s.frames
    requires frame.done == s.frames[f].done && frame.dispatched == s.frames[f].dispatched
    ensures Conserved(c, Advance(c, s, f, frame))
  {
    hide Names, NamesTiles, Below, DoneIn, DispatchedIn, FinishedOnce, Finishing;
    var stored := if frame.got >= c.tiles && !frame.dispatched then frame.(dispatched := true) else frame;
    var s' := Advance(c, s, f, frame);
    assert s'.frames == s.frames[f := stored];
    KeysAfter(s.frames, f, stored);
    SameDone(s.frames, f, stored);
    if stored.dispatched && !frame.dispatched {
      OneMoreDispatched(s.frames, f, stored);
      AddToMultiset(DispatchedIn(s.frames), f);
    } else {
      SameDispatched(s.frames, f, stored);
    }
    Quiet(s.inf, s'.inf);
    FinishedUnmoved(s, s');
  }

  lemma FetchTileKeeps(c: Config, s: State, f: nat, t: nat, ok: bool, again: bool)
    requires Conserved(c, s) && Enabled(c, s, FetchTile(f, t, ok, again))
    ensures Conserved(c, Next(c, s, FetchTile(f, t, ok, again)))
  {
    hide Names, NamesTiles, Below, DoneIn, DispatchedIn, FinishedOnce, Finishing, Advance;
    TakeNamesTiles(s.infTasks, (f, t), again, s.frames.Keys);
    var s' := s.(infTasks := Take(s.infTasks, (f, t), again), infSeen := s.infSeen + 1,
        totals := CountTile(s.totals, ok));
    FinishedUnmoved(s, s');
    AdvanceKeeps(c, s', f, Reply(s.frames[f], t, ok));
  }

  lemma SubmitStitchKeeps(c: Config, s: State)
    requires Conserved(c, s) && Enabled(c, s, SubmitStitch)
    ensures Conserved(c, Next(c, s, SubmitStitch))
  {
    hide Names, NamesTiles, Below, DoneIn, DispatchedIn, FinishedOnce, Finishing;
    AddNames(s.stitchTasks, s.inf.frame, s.frames.Keys);
    Quiet(s.inf, Next(c, s, SubmitStitch).inf);
    FinishedUnmoved(s, Next(c, s, SubmitStitch));
  }

  lemma FetchStitchKeeps(c: Config, s: State, f: nat, ok: bool, again: bool)
    requires Conserved(c, s) && Enabled(c, s, FetchStitch(f, ok, again))
    ensures Conserved(c, Next(c, s, FetchStitch(f, ok, again)))
  {
    hide Names, NamesTiles, Below, DoneIn, DispatchedIn, FinishedOnce, Finishing;
    TakeNames(s.stitchTasks, f, again, s.frames.Keys);
    Quiet(s.stitch, Next(c, s, FetchStitch(f, ok, again)).stitch);
    FinishedUnmoved(s, Next(c, s, FetchStitch(f, ok, again)));
  }

  lemma MarkKeeps(c: Config, s: State, thread: Thread)
    requires Conserved(c, s) && Enabled(c, s, Mark(thread))
    ensures Conserved(c, Next(c, s, Mark(thread)))
  {
    hide Names, NamesTiles, Below, DoneIn, DispatchedIn, FinishedOnce, Finishing;
    var f, s' := s.At(thread).frame, Next(c, s, Mark(thread));
    if s.frames[f].done {
      Quiet(s.At(thread), Idle);
    } else {
      var frame := s.frames[f].(done := true);
      KeysAfter(s.frames, f, frame);
      OneMoreDone(s.frames, f, frame);
      SameDispatched(s.frames, f, frame);
      AddToMultiset(DoneIn(s.frames), f);
      Quiet(s.At(thread), Idle);
      Busy(s'.At(thread));
    }
    FinishedMoved(s, s', thread);
  }

  lemma RemoveKeeps(c: Config, s: State, thread: Thread)
    requires Conserved(c, s) && Enabled(c, s, Remove(thread))
    ensures Conserved(c, Next(c, s, Remove(thread)))
  {
    hide Names, NamesTiles, Below, DoneIn, DispatchedIn, FinishedOnce, Finishing;
    Busy(s.At(thread));
    Busy(Next(c, s, Remove(thread)).At(thread));
    FinishedMoved(s, Next(c, s, Remove(thread)), thread);
  }

  lemma ReleaseKeeps(c: Config, s: State, thread: Thread)
    requires Conserved(c, s) && Enabled(c, s, Release(thread))
    ensures Conserved(c, Next(c, s, Release(thread)))
  {
    hide Names, NamesTiles, Below, DoneIn, DispatchedIn, FinishedOnce, Finishing;
    Busy(s.At(thread));
    Quiet(Idle, Idle);
    FinishedMoved(s, Next(c, s, Release(thread)), thread);
  }

  lemma StallKeeps(c: Config, s: State)
    requires Conserved(c, s) && Enabled(c, s, Stall)
    ensures Conserved(c, Next(c, s, Stall))
  {
    hide Names, NamesTiles, Below, DoneIn, DispatchedIn, FinishedOnce, Finishing;
    FinishedUnmoved(s, Next(c, s, Stall));
  }

  lemma InKnown(known: set<nat>, f: nat, n: nat)
    requires Below(known, n)
    ensures f in known <==> f < n
  {
  }

  lemma Quiet(fetcher: Fetcher, fetcher': Fetcher)
    requires !fetcher.ToRemove? && !fetcher.ToRelease? && !fetcher'.ToRemove? && !fetcher'.ToRelease?
    ensures Finishing(fetcher) == Finishing(fetcher') == multiset{}
  {
  }

  lemma Busy(fetcher: Fetcher)
    requires fetcher.ToRemove? || fetcher.ToRelease?
    ensures Finishing(fetcher) == multiset{fetcher.frame}
  {
  }

  // ----- Whole runs

  lemma ActionKeeps(c: Config, s: State, a: Action)
    requires Conserved(c, s) && Enabled(c, s, a)
    ensures Conserved(c, Next(c, s, a))
  {
    hide Conserved, Enabled, Next;
    match a
    case Acquire => AcquireKeeps(c, s);
    case Register => RegisterKeeps(c, s);
    case SubmitSegment => SubmitSegmentKeeps(c, s);
    case WriteTiles(f) => WriteTilesKeeps(c, s, f);
    case FetchSegment(f, ok, again) => FetchSegmentKeeps(c, s, f, ok, again);
    case SubmitTile => SubmitTileKeeps(c, s);
    case FetchTile(f, t, ok, again) => FetchTileKeeps(c, s, f, t, ok, again);
    case SubmitStitch => SubmitStitchKeeps(c, s);
    case FetchStitch(f, ok, again) => FetchStitchKeeps(c, s, f, ok, again);
    case Mark(thread) => MarkKeeps(c, s, thread);
    case Remove(thread) => RemoveKeeps(c, s, thread);
    case Release(thread) => ReleaseKeeps(c, s, thread);
    case Stall => StallKeeps(c, s);
  }

  lemma {:induction false} RunKeeps(c: Config, s: State, run: seq<Action>)
    requires Conserved(c, s) && IsRun(c, s, run)
    ensures Conserved(c, After(c, s, run))
    decreases |run|
  {
    hide Conserved, Enabled, Next;
    if run != [] {
      ActionKeeps(c, s, run[0]);
      RunKeeps(c, Next(c, s, run[0]), run[1..]);
    }
  }

  lemma StartConserved(c: Config)
    ensures Conserved(c, Start(c))
  {
  }

  /** At most the acquired frames are done. */
  lemma DoneAreAcquired(c: Config, s: State)
    requires Conserved(c, s)
    ensures |s.released| + |AllFinishing(s)| == |DoneIn(s.frames)| <= KnownCount(s) <= AcquiredCount(s)
    ensures KnownCount(s) <= c.count
    ensures |DoneIn(s.frames)| == c.count ==> forall f: nat :: f < c.count ==> f in s.frames && s.frames[f].done
  {
    BoundedSet(DoneIn(s.frames), KnownCount(s));
    assert |s.released + AllFinishing(s)| == |s.released| + |AllFinishing(s)|;
    if |DoneIn(s.frames)| == c.count {
      forall f: nat | f < c.count ensures f in s.frames && s.frames[f].done {
        assert f in DoneIn(s.frames);
      }
    }
  }

  /** In every run, with outputs duplicated arbitrarily: the free permits and the frames acquired
      but not yet released add up to in_flight; no frame is released or dispatched twice; the
      counters agree with the frames and tiles they count. */
  lemma SemaphoreConserved(c: Config, run: seq<Action>)
    requires IsRun(c, Start(c), run)
    ensures var s := After(c, Start(c), run);
            && |s.released| <= AcquiredCount(s)
            && s.permits + (AcquiredCount(s) - |s.released|) == c.inFlight
            && (forall f :: s.released[f] <= 1 && s.dispatches[f] <= 1)
            && s.totals.imgDone == |DoneIn(s.frames)| <= c.count
            && s.totals.tilesOk + s.totals.infErr == s.totals.infDone
  {
    var s := After(c, Start(c), run);
    StartConserved(c);
    RunKeeps(c, Start(c), run);
    DoneAreAcquired(c, s);
    forall f ensures s.released[f] <= 1 && s.dispatches[f] <= 1 {
      assert (s.released + AllFinishing(s))[f] == multiset(DoneIn(s.frames))[f];
      assert s.dispatches[f] == multiset(DispatchedIn(s.frames))[f];
    }
  }

  /** The bounded semaphore is never released above its bound, which would raise. */
  lemma ReleaseNeverRaises(c: Config, run: seq<Action>, thread: Thread)
    requires IsRun(c, Start(c), run) && Enabled(c, After(c, Start(c), run), Release(thread))
    ensures After(c, Start(c), run).permits < c.inFlight
  {
    var s := After(c, Start(c), run);
    StartConserved(c);
    RunKeeps(c, Start(c), run);
    DoneAreAcquired(c, s);
    Busy(s.At(thread));
    assert s.At(thread).frame in AllFinishing(s);
    assert |AllFinishing(s)| > 0;
  }

  /** Without a stall the client ends only when every frame is done. */
  lemma DoneMeansAllFrames(c: Config, run: seq<Action>)
    requires IsRun(c, Start(c), run)
    requires var s := After(c, Start(c), run); s.doneEvt && !s.stalled
    ensures var s := After(c, Start(c), run);
            s.totals.imgDone == c.count && forall f: nat :: f < c.count ==> f in s.frames && s.frames[f].done
  {
    var s := After(c, Start(c), run);
    StartConserved(c);
    RunKeeps(c, Start(c), run);
    DoneAreAcquired(c, s);
  }

  /** Asked for no frames at all, no thread ever moves and the client waits for ever: the event is
      set only by a finished frame or by the watchdog, which needs a pending one. */
  lemma NoFramesNeverEnds(c: Config, run: seq<Action>)
    requires c.count == 0 && IsRun(c, Start(c), run)
    ensures run == [] && !After(c, Start(c), run).doneEvt
  {
  }

  lemma {:induction false} StalledStaysDone(c: Config, s: State, run: seq<Action>)
    requires IsRun(c, s, run) && (s.stalled ==> s.doneEvt)
    ensures var s' := After(c, s, run); s'.stalled ==> s'.doneEvt
    decreases |run|
  {
    hide Enabled, Next;
    if run != [] {
      StallKeepsDone(c, s, run[0]);
      StalledStaysDone(c, Next(c, s, run[0]), run[1..]);
    }
  }

  lemma StallKeepsDone(c: Config, s: State, a: Action)
    requires Enabled(c, s, a) && (s.stalled ==> s.doneEvt)
    ensures var s' := Next(c, s, a); s'.stalled ==> s'.doneEvt
  {
  }

  /** In every run the event is set exactly when the watchdog has given up or a frame has been finished
      and all of them are; and the watchdog can give up exactly while frames are missing and the event
      is not set, which then sets it and changes nothing else the client reports. */
  lemma EventIff(c: Config, run: seq<Action>)
    requires IsRun(c, Start(c), run)
    ensures var s := After(c, Start(c), run);
            && (s.doneEvt <==> s.stalled || (s.totals.imgDone > 0 && s.totals.imgDone >= c.count))
            && (Enabled(c, s, Stall) <==> !s.stalled && s.totals.imgDone < c.count)
            && (Enabled(c, s, Stall) ==>
                  var s' := Next(c, s, Stall); s'.doneEvt && s'.stalled && s'.totals == s.totals)
  {
    StartConserved(c);
    RunKeeps(c, Start(c), run);
    StalledStaysDone(c, Start(c), run);
    hide Named, FinishedOnce, DispatchedOnce;
  }
}
