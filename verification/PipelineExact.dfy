/** The pipeline when no output is delivered twice: each frame is in exactly one place. */
module PipelineExact {
  import opened Cardinality
  import opened Pipeline
  import opened PipelineSafety

  /** Everything the state says about one frame, apart from its outstanding tiles. */
  datatype Local = Local(frame: Frame, unsent: bool, segTasks: nat, stitchTasks: nat, seg: Fetcher, inf: Fetcher,
      stitch: Fetcher, dir: bool)
  {
    function At(thread: Thread): Fetcher {
      match thread
      case SegThread => seg
      case InfThread => inf
      case StitchThread => stitch
    }

    function With(thread: Thread, fetcher: Fetcher): Local {
      match thread
      case SegThread => this.(seg := fetcher)
      case InfThread => this.(inf := fetcher)
      case StitchThread => this.(stitch := fetcher)
    }
  }

  function View(fetcher: Fetcher, f: nat): Fetcher {
    if fetcher.Idle? || fetcher.frame != f then Idle else fetcher
  }

  ghost function LocalOf(s: State, f: nat): Local
    requires f in s.frames
  {
    Local(s.frames[f], s.submitter.Registered? && s.next == f, s.segTasks[f], s.stitchTasks[f],
          View(s.seg, f), View(s.inf, f), View(s.stitch, f), f in s.directories)
  }

  function One(b: bool): nat { if b then 1 else 0 }

  /** Whether a thread holds the frame before marking it done. */
  predicate Holds(fetcher: Fetcher) {
    fetcher.Splitting? || fetcher.Sending? || fetcher.ToFinish?
  }

  /** In how many places the frame is, not counting the wait for its tiles. */
  function Places(l: Local): nat {
    One(l.unsent) + l.segTasks + l.stitchTasks + One(Holds(l.seg)) + One(Holds(l.inf)) + One(Holds(l.stitch))
  }

  ghost predicate Bookkept(c: Config, frame: Frame) {
    && frame.sent <= c.tiles
    && (forall t :: t in frame.replied ==> t < frame.sent)
    && frame.got == |frame.replied|
    && frame.succeeded <= frame.replied
    && (!frame.err ==> frame.succeeded == frame.replied)
  }

  ghost predicate LocalOk(c: Config, l: Local) {
    && Bookkept(c, l.frame)
    && (l.seg.Splitting? || l.seg.ToFinish? || l.seg.ToRemove? || l.seg.ToRelease? || l.seg.Idle?)
    && !l.inf.Splitting? && !l.stitch.Splitting? && !l.stitch.Sending?
    && (l.frame.done ==>
          && Places(l) == 0 && l.frame.got == l.frame.sent
          && (l.dir ==> l.seg.ToRemove? || l.inf.ToRemove? || l.stitch.ToRemove?))
    && (!l.frame.done ==>
          && Places(l) <= 1
          && !(l.seg.ToRemove? || l.inf.ToRemove? || l.stitch.ToRemove?)
          && (l.unsent || l.segTasks > 0 || l.seg.ToFinish? ==> l.frame.sent == 0 && !l.frame.dispatched)
          && (l.seg.Splitting? ==> l.frame.sent == l.seg.tile < c.tiles && !l.frame.dispatched && l.dir)
          && (l.inf.Sending? || l.inf.ToFinish? || l.stitchTasks > 0 || l.stitch.ToFinish? ==>
                l.frame.dispatched && l.frame.got == l.frame.sent == c.tiles && l.dir)
          && (l.inf.Sending? || l.stitchTasks > 0 || l.stitch.ToFinish? ==> !l.frame.err)
          && (Places(l) == 0 ==> l.frame.sent == c.tiles && l.frame.got < c.tiles && !l.frame.dispatched && l.dir))
  }

  /** The outstanding inference tasks of a frame are the submitted tiles without a reply. */
  ghost predicate TilesOk(tasks: multiset<(nat, nat)>, f: nat, frame: Frame) {
    forall t: nat :: tasks[(f, t)] == if t < frame.sent && t !in frame.replied then 1 else 0
  }

  ghost predicate FrameOk(c: Config, s: State, f: nat) {
    f in s.frames && LocalOk(c, LocalOf(s, f)) && TilesOk(s.infTasks, f, s.frames[f])
  }

  ghost predicate Exact(c: Config, s: State) {
    && (forall f :: f in s.frames ==> FrameOk(c, s, f))
    && s.directories <= s.frames.Keys
  }

  ghost predicate Strict(c: Config) {
    !c.duplicates && c.tiles > 0
  }

  /** An action that concerns only frame f leaves every other frame as it was. */
  lemma OnlyFrame(c: Config, s: State, s': State, f: nat)
    requires Exact(c, s) && FrameOk(c, s', f) && s'.directories <= s'.frames.Keys
    requires forall g :: g in s'.frames && g != f ==> g in s.frames && LocalOf(s', g) == LocalOf(s, g)
    requires forall p: (nat, nat) :: p.0 != f ==> s'.infTasks[p] == s.infTasks[p]
    ensures Exact(c, s')
  {
    forall g | g in s'.frames && g != f ensures FrameOk(c, s', g) {
      hide LocalOk;
      assert FrameOk(c, s, g);
      forall t: nat ensures s'.infTasks[(g, t)] == s.infTasks[(g, t)] {
        assert (g, t).0 != f;
      }
    }
  }

  lemma NoFrame(c: Config, s: State, s': State)
    requires Exact(c, s) && s'.directories <= s'.frames.Keys && s'.frames.Keys == s.frames.Keys
    requires forall g :: g in s.frames ==> LocalOf(s', g) == LocalOf(s, g)
    requires s'.infTasks == s.infTasks
    ensures Exact(c, s')
  {
    forall g | g in s'.frames ensures FrameOk(c, s', g) {
      hide LocalOk, TilesOk;
      assert FrameOk(c, s, g);
    }
  }

  /** A thread finishing a frame has marked it done. */
  lemma FinishingIsDone(c: Config, s: State, thread: Thread)
    requires FinishedOnce(s) && (s.At(thread).ToRemove? || s.At(thread).ToRelease?)
    ensures s.At(thread).frame in s.frames && s.frames[s.At(thread).frame].done
  {
    assert (s.released + AllFinishing(s))[s.At(thread).frame] > 0 by { Busy(s.At(thread)); }
    assert s.At(thread).frame in multiset(DoneIn(s.frames));
  }

  // ----- What each action does to the frame it concerns

  lemma SplitLocal(c: Config, l: Local, ok: bool, f: nat, l': Local)
    requires Strict(c) && LocalOk(c, l) && l.segTasks > 0 && l.seg.Idle? && (ok ==> l.dir)
    requires l' == l.(segTasks := l.segTasks - 1, seg := if ok then Splitting(f, 0) else ToFinish(f, true))
    ensures LocalOk(c, l')
  {
  }

  lemma TileLocal(c: Config, l: Local, l': Local)
    requires Strict(c) && LocalOk(c, l) && l.seg.Splitting?
    requires var t := l.seg.tile;
             l' == l.(frame := l.frame.(sent := t + 1), seg := if t + 1 < c.tiles then Splitting(l.seg.frame, t + 1)
                 else Idle)
    ensures !l.frame.done && Bookkept(c, l.frame) && l.frame.sent == l.seg.tile && LocalOk(c, l')
  {
    if l.frame.got == c.tiles {
      BoundedSet(l.frame.replied, c.tiles);
    }
    BoundedSet(l.frame.replied, l.frame.sent);
  }

  lemma ReplyLocal(c: Config, l: Local, f: nat, t: nat, ok: bool, l': Local)
    requires Strict(c) && LocalOk(c, l) && l.inf.Idle? && t < l.frame.sent && t !in l.frame.replied
    requires var frame := Reply(l.frame, t, ok);
             l' == if frame.got >= c.tiles && !frame.dispatched
                   then l.(frame := frame.(dispatched := true), inf := if frame.err then ToFinish(f, true)
                       else Sending(f))
                   else l.(frame := frame)
    ensures LocalOk(c, l')
  {
    var frame := Reply(l.frame, t, ok);
    assert |frame.replied| == |l.frame.replied| + 1;
    BoundedSet(frame.replied, frame.sent);
    if l.frame.done {
      BoundedSet(l.frame.replied, l.frame.sent);
    }
  }

  lemma StitchSentLocal(c: Config, l: Local, l': Local)
    requires LocalOk(c, l) && l.inf.Sending? && l' == l.(stitchTasks := l.stitchTasks + 1, inf := Idle)
    ensures LocalOk(c, l')
  {
  }

  lemma StitchedLocal(c: Config, l: Local, f: nat, ok: bool, l': Local)
    requires LocalOk(c, l) && l.stitchTasks > 0 && l.stitch.Idle?
    requires l' == l.(stitchTasks := l.stitchTasks - 1, stitch := ToFinish(f, !ok))
    ensures LocalOk(c, l')
  {
  }

  lemma MarkLocal(c: Config, l: Local, thread: Thread, l': Local)
    requires LocalOk(c, l) && l.At(thread).ToFinish?
    requires l' == l.(frame := l.frame.(done := true)).With(thread, ToRemove(l.At(thread).frame))
    ensures !l.frame.done && LocalOk(c, l')
  {
    BoundedSet(l.frame.replied, l.frame.sent);
  }

  lemma RemoveLocal(c: Config, l: Local, thread: Thread, l': Local)
    requires LocalOk(c, l) && l.frame.done && l.At(thread).ToRemove?
    requires l' == l.(dir := false).With(thread, ToRelease(l.At(thread).frame))
    ensures LocalOk(c, l')
  {
  }

  lemma ReleaseLocal(c: Config, l: Local, thread: Thread, l': Local)
    requires LocalOk(c, l) && l.frame.done && l.At(thread).ToRelease? && l' == l.With(thread, Idle)
    ensures LocalOk(c, l')
  {
  }

  // ----- Every action keeps every frame in exactly one place

  lemma AcquireExact(c: Config, s: State)
    requires Strict(c) && Named(c, s) && FinishedOnce(s) && Exact(c, s) && Enabled(c, s, Acquire)
    ensures Exact(c, Next(c, s, Acquire))
  {
    hide LocalOk, TilesOk, Below, Names, NamesTiles, FinishedOnce, Bookkept;
    var s' := Next(c, s, Acquire);
    NoFrame(c, s, s');
  }

  lemma StallExact(c: Config, s: State)
    requires Strict(c) && Named(c, s) && FinishedOnce(s) && Exact(c, s) && Enabled(c, s, Stall)
    ensures Exact(c, Next(c, s, Stall))
  {
    hide LocalOk, TilesOk, Below, Names, NamesTiles, FinishedOnce, Bookkept;
    var s' := Next(c, s, Stall);
    NoFrame(c, s, s');
  }

  lemma RegisterExact(c: Config, s: State)
    requires Strict(c) && Named(c, s) && FinishedOnce(s) && Exact(c, s) && Enabled(c, s, Register)
    ensures Exact(c, Next(c, s, Register))
  {
    hide LocalOk, TilesOk, Below, Names, NamesTiles, FinishedOnce, Bookkept;
    var s' := Next(c, s, Register);
    InKnown(s.frames.Keys, s.next, s.next);
    NewLocal(c, s, s', s.next);
    OnlyFrame(c, s, s', s.next);
  }

  lemma SubmitSegmentExact(c: Config, s: State)
    requires Strict(c) && Named(c, s) && FinishedOnce(s) && Exact(c, s) && Enabled(c, s, SubmitSegment)
    ensures Exact(c, Next(c, s, SubmitSegment))
  {
    hide LocalOk, TilesOk, Below, Names, NamesTiles, FinishedOnce, Bookkept;
    var s' := Next(c, s, SubmitSegment);
    var f := s.next;
    InKnown(s.frames.Keys, f, f + 1);
    assert FrameOk(c, s, f);
    SentLocal(c, LocalOf(s, f), LocalOf(s', f));
    OnlyFrame(c, s, s', f);
  }

  lemma WriteTilesExact(c: Config, s: State, f: nat)
    requires Strict(c) && Named(c, s) && FinishedOnce(s) && Exact(c, s) && Enabled(c, s, WriteTiles(f))
    ensures Exact(c, Next(c, s, WriteTiles(f)))
  {
    hide LocalOk, TilesOk, Below, Names, NamesTiles, FinishedOnce, Bookkept;
    var s' := Next(c, s, WriteTiles(f));
    TakeNames(s.segTasks, f, true, s.frames.Keys);
    assert FrameOk(c, s, f);
    WrittenLocal(c, LocalOf(s, f), LocalOf(s', f));
    OnlyFrame(c, s, s', f);
  }

  lemma FetchSegmentExact(c: Config, s: State, f: nat, ok: bool, again: bool)
    requires Strict(c) && Named(c, s) && FinishedOnce(s) && Exact(c, s) && Enabled(c, s, FetchSegment(f, ok, again))
    ensures Exact(c, Next(c, s, FetchSegment(f, ok, again)))
  {
    hide LocalOk, TilesOk, Below, Names, NamesTiles, FinishedOnce, Bookkept;
    var s' := Next(c, s, FetchSegment(f, ok, again));
    TakeNames(s.segTasks, f, again, s.frames.Keys);
    assert FrameOk(c, s, f);
    SplitLocal(c, LocalOf(s, f), ok, f, LocalOf(s', f));
    OnlyFrame(c, s, s', f);
  }

  lemma SubmitTileExact(c: Config, s: State)
    requires Strict(c) && Named(c, s) && FinishedOnce(s) && Exact(c, s) && Enabled(c, s, SubmitTile)
    ensures Exact(c, Next(c, s, SubmitTile))
  {
    hide LocalOk, TilesOk, Below, Names, NamesTiles, FinishedOnce, Bookkept;
    var s' := Next(c, s, SubmitTile);
    var f, t := s.seg.frame, s.seg.tile;
    assert FrameOk(c, s, f);
    TileLocal(c, LocalOf(s, f), LocalOf(s', f));
    NewTile(c, s.infTasks, f, s.frames[f], t);
    OnlyFrame(c, s, s', f);
  }

  lemma FetchTileExact(c: Config, s: State, f: nat, t: nat, ok: bool, again: bool)
    requires Strict(c) && Named(c, s) && FinishedOnce(s) && Exact(c, s) && Enabled(c, s, FetchTile(f, t, ok, again))
    ensures Exact(c, Next(c, s, FetchTile(f, t, ok, again)))
  {
    hide LocalOk, TilesOk, Below, Names, NamesTiles, FinishedOnce, Bookkept, Advance, Reply, CountTile;
    TakeNamesTiles(s.infTasks, (f, t), again, s.frames.Keys);
    assert FrameOk(c, s, f);
    var frame := Reply(s.frames[f], t, ok);
    var taken := s.(infTasks := s.infTasks - multiset{(f, t)}, infSeen := s.infSeen + 1,
        totals := CountTile(s.totals, ok));
    assert Next(c, s, FetchTile(f, t, ok, again)) == Advance(c, taken, f, frame);
    ReplyKeepsFrame(c, s, taken, f, t, ok);
  }

  lemma ReplyKeepsFrame(c: Config, s: State, taken: State, f: nat, t: nat, ok: bool)
    requires Strict(c) && Exact(c, s) && f in s.frames && FrameOk(c, s, f) && s.inf.Idle? && (f, t) in s.infTasks
    requires taken == s.(infTasks := s.infTasks - multiset{(f, t)}, infSeen := taken.infSeen, totals := taken.totals)
    ensures Exact(c, Advance(c, taken, f, Reply(s.frames[f], t, ok)))
  {
    hide LocalOk, TilesOk, Advance, Reply;
    var frame := Reply(s.frames[f], t, ok);
    var s' := Advance(c, taken, f, frame);
    TakenTile(s.infTasks, f, s.frames[f], t, ok);
    AdvanceLocal(c, taken, f, frame);
    ReplyLocal(c, LocalOf(s, f), f, t, ok, LocalOf(s', f));
    assert forall g :: g in s.frames ==> LocalOf(taken, g) == LocalOf(s, g);
    assert s'.frames[f] == LocalOf(s', f).frame;
    OnlyFrame(c, s, s', f);
  }

  lemma AdvanceLocal(c: Config, s: State, f: nat, frame: Frame)
    requires f in s.frames && s.inf.Idle?
    ensures var s', l := Advance(c, s, f, frame), LocalOf(s, f);
            && s'.infTasks == s.infTasks && s'.directories == s.directories && s'.frames.Keys == s.frames.Keys
            && (forall g :: g in s.frames && g != f ==> LocalOf(s', g) == LocalOf(s, g))
            && LocalOf(s', f) == (if frame.got >= c.tiles && !frame.dispatched
                                  then l.(frame := frame.(dispatched := true), inf := if frame.err
                                      then ToFinish(f, true) else Sending(f))
                                  else l.(frame := frame))
  {
  }

  lemma SubmitStitchExact(c: Config, s: State)
    requires Strict(c) && Named(c, s) && FinishedOnce(s) && Exact(c, s) && Enabled(c, s, SubmitStitch)
    ensures Exact(c, Next(c, s, SubmitStitch))
  {
    hide LocalOk, TilesOk, Below, Names, NamesTiles, FinishedOnce, Bookkept;
    var s' := Next(c, s, SubmitStitch);
    var f := s.inf.frame;
    assert FrameOk(c, s, f);
    StitchSentLocal(c, LocalOf(s, f), LocalOf(s', f));
    OnlyFrame(c, s, s', f);
  }

  lemma FetchStitchExact(c: Config, s: State, f: nat, ok: bool, again: bool)
    requires Strict(c) && Named(c, s) && FinishedOnce(s) && Exact(c, s) && Enabled(c, s, FetchStitch(f, ok, again))
    ensures Exact(c, Next(c, s, FetchStitch(f, ok, again)))
  {
    hide LocalOk, TilesOk, Below, Names, NamesTiles, FinishedOnce, Bookkept;
    var s' := Next(c, s, FetchStitch(f, ok, again));
    TakeNames(s.stitchTasks, f, again, s.frames.Keys);
    assert FrameOk(c, s, f);
    StitchedLocal(c, LocalOf(s, f), f, ok, LocalOf(s', f));
    OnlyFrame(c, s, s', f);
  }

  lemma MarkExact(c: Config, s: State, thread: Thread)
    requires Strict(c) && Named(c, s) && FinishedOnce(s) && Exact(c, s) && Enabled(c, s, Mark(thread))
    ensures Exact(c, Next(c, s, Mark(thread)))
  {
    hide LocalOk, TilesOk, Below, Names, NamesTiles, FinishedOnce, Bookkept;
    var s' := Next(c, s, Mark(thread));
    var f := s.At(thread).frame;
    assert FrameOk(c, s, f);
    MarkLocal(c, LocalOf(s, f), thread, LocalOf(s, f).(frame := s.frames[f].(done := true)).With(thread, ToRemove(f)));
    assert LocalOf(s', f) == LocalOf(s, f).(frame := s.frames[f].(done := true)).With(thread, ToRemove(f));
    SameTiles(s.infTasks, f, s.frames[f], s'.frames[f]);
    OnlyFrame(c, s, s', f);
  }

  lemma RemoveExact(c: Config, s: State, thread: Thread)
    requires Strict(c) && Named(c, s) && FinishedOnce(s) && Exact(c, s) && Enabled(c, s, Remove(thread))
    ensures Exact(c, Next(c, s, Remove(thread)))
  {
    hide LocalOk, TilesOk, Below, Names, NamesTiles, FinishedOnce, Bookkept;
    var s' := Next(c, s, Remove(thread));
    var f := s.At(thread).frame;
    FinishingIsDone(c, s, thread);
    assert FrameOk(c, s, f);
    RemoveLocal(c, LocalOf(s, f), thread, LocalOf(s', f));
    OnlyFrame(c, s, s', f);
  }

  lemma ReleaseExact(c: Config, s: State, thread: Thread)
    requires Strict(c) && Named(c, s) && FinishedOnce(s) && Exact(c, s) && Enabled(c, s, Release(thread))
    ensures Exact(c, Next(c, s, Release(thread)))
  {
    hide LocalOk, TilesOk, Below, Names, NamesTiles, FinishedOnce, Bookkept;
    var s' := Next(c, s, Release(thread));
    var f := s.At(thread).frame;
    FinishingIsDone(c, s, thread);
    assert FrameOk(c, s, f);
    ReleaseLocal(c, LocalOf(s, f), thread, LocalOf(s', f));
    OnlyFrame(c, s, s', f);
  }

  lemma NewLocal(c: Config, s: State, s': State, f: nat)
    requires Named(c, s) && s.submitter.Acquired? && f == s.next && f !in s.frames && s' == Next(c, s, Register)
    requires s.directories <= s.frames.Keys
    ensures FrameOk(c, s', f)
  {
  }

  lemma SentLocal(c: Config, l: Local, l': Local)
    requires LocalOk(c, l) && l.unsent && l' == l.(unsent := false, segTasks := l.segTasks + 1)
    ensures LocalOk(c, l')
  {
  }

  lemma WrittenLocal(c: Config, l: Local, l': Local)
    requires LocalOk(c, l) && l.segTasks > 0 && l' == l.(dir := true)
    ensures LocalOk(c, l')
  {
  }

  lemma NewTile(c: Config, tasks: multiset<(nat, nat)>, f: nat, frame: Frame, t: nat)
    requires Bookkept(c, frame) && TilesOk(tasks, f, frame) && t == frame.sent
    ensures TilesOk(tasks + multiset{(f, t)}, f, frame.(sent := t + 1))
  {
  }

  lemma TakenTile(tasks: multiset<(nat, nat)>, f: nat, frame: Frame, t: nat, ok: bool)
    requires TilesOk(tasks, f, frame) && (f, t) in tasks
    ensures t < frame.sent && t !in frame.replied
    ensures var tasks', frame' := tasks - multiset{(f, t)}, Reply(frame, t, ok);
            TilesOk(tasks', f, frame') && TilesOk(tasks', f, frame'.(dispatched := true))
  {
  }

  lemma SameTiles(tasks: multiset<(nat, nat)>, f: nat, frame: Frame, frame': Frame)
    requires TilesOk(tasks, f, frame) && frame'.sent == frame.sent && frame'.replied == frame.replied
    ensures TilesOk(tasks, f, frame')
  {
  }
}
