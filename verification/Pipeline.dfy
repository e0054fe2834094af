/** The client's streaming pipeline (shard_client.py) as a state machine: four threads and a
    watchdog over one lock, a bounded semaphore and three task queues.  Every action is one
    critical section or one call on a queue or the semaphore, so any interleaving of the threads is
    a sequence of actions. */
module Pipeline {

  /** `inFlight` is positive in the client: 0 on its command line selects an automatic value, and the
      semaphore refuses a negative one.  The exact conditions below name the case 0 all the same. */
  datatype Config = Config(count: nat, tiles: nat, inFlight: nat, duplicates: bool)

  /** img_state[image_id]; the last three fields record history that only the theorems read: tiles
      submitted, and tiles for which a reply, or a successful reply, has been fetched. */
  datatype Frame = Frame(got: nat, err: bool, done: bool, dispatched: bool, sent: nat, replied: set<nat>,
      succeeded: set<nat>)

  const NEW_FRAME := Frame(0, false, false, false, 0, {}, {})

  /** Where seg_submit is with frame `next`: before acquire, before registering, before sending. */
  datatype Submitter = Waiting | Acquired | Registered

  /** Where a fetching thread is.  The last three are the parts of _finish: marking the frame done
      under the lock, removing its directory, releasing its permit. */
  datatype Fetcher =
    | Idle
    | Splitting(frame: nat, tile: nat)
    | Sending(frame: nat)
    | ToFinish(frame: nat, failed: bool)
    | ToRemove(frame: nat)
    | ToRelease(frame: nat)

  datatype Totals = Totals(segErr: nat, infDone: nat, infErr: nat, imgDone: nat, imgErr: nat, tilesOk: nat)

  datatype State = State(
    next: nat, submitter: Submitter, permits: nat, frames: map<nat, Frame>,
    segTasks: multiset<nat>, infTasks: multiset<(nat, nat)>, stitchTasks: multiset<nat>,
    segSeen: nat, infSeen: nat,
    seg: Fetcher, inf: Fetcher, stitch: Fetcher,
    directories: set<nat>, totals: Totals, doneEvt: bool, stalled: bool,
    released: multiset<nat>, dispatches: multiset<nat>)
  {
    function At(thread: Thread): Fetcher {
      match thread
      case SegThread => seg
      case InfThread => inf
      case StitchThread => stitch
    }

    function With(thread: Thread, fetcher: Fetcher): State {
      match thread
      case SegThread => this.(seg := fetcher)
      case InfThread => this.(inf := fetcher)
      case StitchThread => this.(stitch := fetcher)
    }
  }

  datatype Thread = SegThread | InfThread | StitchThread

  /** `again` keeps the fetched task outstanding: its output will be delivered once more. */
  datatype Action =
    | Acquire
    | Register
    | SubmitSegment
    | WriteTiles(frame: nat)
    | FetchSegment(frame: nat, ok: bool, again: bool)
    | SubmitTile
    | FetchTile(frame: nat, tile: nat, ok: bool, again: bool)
    | SubmitStitch
    | FetchStitch(frame: nat, ok: bool, again: bool)
    | Mark(thread: Thread)
    | Remove(thread: Thread)
    | Release(thread: Thread)
    | Stall

  function Start(c: Config): State {
    State(0, Waiting, c.inFlight, map[], multiset{}, multiset{}, multiset{}, 0, 0, Idle, Idle, Idle,
          {}, Totals(0, 0, 0, 0, 0, 0), false, false, multiset{}, multiset{})
  }

  predicate Enabled(c: Config, s: State, a: Action) {
    match a
    case Acquire => s.submitter.Waiting? && s.next < c.count && s.permits > 0
    case Register => s.submitter.Acquired?
    case SubmitSegment => s.submitter.Registered?
    // the segment service, before it answers
    case WriteTiles(f) => f in s.segTasks && f !in s.directories
    // a successful segment reply means the service has written the frame's directory
    case FetchSegment(f, ok, again) =>
      && s.seg.Idle? && s.segSeen < c.count && f in s.segTasks
      && (ok ==> f in s.directories) && (again ==> c.duplicates)
    case SubmitTile => s.seg.Splitting?
    case FetchTile(f, t, ok, again) =>
      s.inf.Idle? && s.infSeen < c.count * c.tiles && (f, t) in s.infTasks && (again ==> c.duplicates)
    case SubmitStitch => s.inf.Sending?
    // the event is tested before a blocking fetch, so an output may also arrive after it was set
    case FetchStitch(f, ok, again) =>
      s.stitch.Idle? && f in s.stitchTasks && (again ==> c.duplicates)
    case Mark(thread) => s.At(thread).ToFinish?
    case Remove(thread) => s.At(thread).ToRemove?
    case Release(thread) => s.At(thread).ToRelease?
    case Stall => !s.doneEvt && s.totals.imgDone < c.count
  }

  function Take<T>(tasks: multiset<T>, task: T, again: bool): multiset<T> {
    if again then tasks else tasks - multiset{task}
  }

  function Next(c: Config, s: State, a: Action): State
    requires Enabled(c, s, a)
  {
    match a
    case Acquire =>
      s.(permits := s.permits - 1, submitter := Acquired)
    case Register =>
      s.(frames := s.frames[s.next := NEW_FRAME], submitter := Registered)
    case SubmitSegment =>
      s.(segTasks := s.segTasks + multiset{s.next}, next := s.next + 1, submitter := Waiting)
    case WriteTiles(f) =>
      s.(directories := s.directories + {f})
    case FetchSegment(f, ok, again) =>
      var s' := s.(segTasks := Take(s.segTasks, f, again), segSeen := s.segSeen + 1);
      if !ok then s'.(totals := s.totals.(segErr := s.totals.segErr + 1), seg := ToFinish(f, true))
      else s'.(seg := if c.tiles == 0 then Idle else Splitting(f, 0))
    case SubmitTile =>
      var f, t := s.seg.frame, s.seg.tile;
      s.(infTasks := s.infTasks + multiset{(f, t)},
         frames := if f in s.frames then s.frames[f := s.frames[f].(sent := t + 1)] else s.frames,
         seg := if t + 1 < c.tiles then Splitting(f, t + 1) else Idle)
    case FetchTile(f, t, ok, again) =>
      var s' := s.(infTasks := Take(s.infTasks, (f, t), again), infSeen := s.infSeen + 1,
          totals := CountTile(s.totals, ok));
      if f in s.frames then Advance(c, s', f, Reply(s.frames[f], t, ok)) else s'
    case SubmitStitch =>
      s.(stitchTasks := s.stitchTasks + multiset{s.inf.frame}, inf := Idle)
    case FetchStitch(f, ok, again) =>
      s.(stitchTasks := Take(s.stitchTasks, f, again), stitch := ToFinish(f, !ok))
    case Mark(thread) =>
      var f, failed := s.At(thread).frame, s.At(thread).failed;
      if f in s.frames && s.frames[f].done then s.With(thread, Idle)
      else
        var counted := s.totals.(imgDone := s.totals.imgDone + 1,
            imgErr := s.totals.imgErr + (if failed then 1 else 0));
        s.(frames := if f in s.frames then s.frames[f := s.frames[f].(done := true)] else s.frames,
           totals := counted,
           doneEvt := s.doneEvt || counted.imgDone >= c.count)
        .With(thread, ToRemove(f))
    case Remove(thread) =>
      s.(directories := s.directories - {s.At(thread).frame}).With(thread, ToRelease(s.At(thread).frame))
    case Release(thread) =>
      s.(permits := s.permits + 1, released := s.released + multiset{s.At(thread).frame}).With(thread, Idle)
    case Stall =>
      s.(stalled := true, doneEvt := true)
  }

  function Reply(frame: Frame, tile: nat, ok: bool): Frame {
    frame.(got := frame.got + 1, err := frame.err || !ok, replied := frame.replied + {tile},
           succeeded := if ok then frame.succeeded + {tile} else frame.succeeded)
  }

  function CountTile(totals: Totals, ok: bool): Totals {
    totals.(infDone := totals.infDone + 1,
            tilesOk := totals.tilesOk + (if ok then 1 else 0),
            infErr := totals.infErr + (if ok then 0 else 1))
  }

  /** Stores the frame's new state; once every tile is in, picks its next stage, exactly once. */
  function Advance(c: Config, s: State, f: nat, frame: Frame): State {
    if frame.got >= c.tiles && !frame.dispatched then
      s.(frames := s.frames[f := frame.(dispatched := true)],
         dispatches := s.dispatches + multiset{f},
         inf := if frame.err then ToFinish(f, true) else Sending(f))
    else s.(frames := s.frames[f := frame])
  }

  // ----- Runs

  /** The actions can be taken one after another from s. */
  ghost predicate IsRun(c: Config, s: State, run: seq<Action>)
    decreases |run|
  {
    run != [] ==> Enabled(c, s, run[0]) && IsRun(c, Next(c, s, run[0]), run[1..])
  }

  ghost function After(c: Config, s: State, run: seq<Action>): State
    requires IsRun(c, s, run)
    decreases |run|
  {
    if run == [] then s else After(c, Next(c, s, run[0]), run[1..])
  }

  // ----- What holds with arbitrary duplicated outputs

  function AcquiredCount(s: State): nat {
    s.next + (if s.submitter.Waiting? then 0 else 1)
  }

  function KnownCount(s: State): nat {
    s.next + (if s.submitter.Registered? then 1 else 0)
  }

  /** The frame a thread has marked done but not yet released. */
  ghost function Finishing(fetcher: Fetcher): multiset<nat> {
    if fetcher.ToRemove? || fetcher.ToRelease? then multiset{fetcher.frame} else multiset{}
  }

  ghost function AllFinishing(s: State): multiset<nat> {
    Finishing(s.seg) + Finishing(s.inf) + Finishing(s.stitch)
  }

  function DoneIn(frames: map<nat, Frame>): set<nat> {
    set f | f in frames && frames[f].done
  }

  ghost predicate Names(tasks: multiset<nat>, known: set<nat>) {
    forall f :: f in tasks ==> f in known
  }

  ghost predicate NamesTiles(tasks: multiset<(nat, nat)>, known: set<nat>) {
    forall p :: p in tasks ==> p.0 in known
  }

  ghost predicate Attends(fetcher: Fetcher, known: set<nat>) {
    fetcher.Idle? || fetcher.frame in known
  }

  ghost predicate Below(known: set<nat>, n: nat) {
    forall f :: f in known <==> 0 <= f < n
  }

  /** Every task and every thread names a frame that has been registered. */
  ghost predicate Named(c: Config, s: State) {
    && s.next <= c.count && (!s.submitter.Waiting? ==> s.next < c.count)
    && Below(s.frames.Keys, KnownCount(s))
    && Names(s.segTasks, s.frames.Keys) && NamesTiles(s.infTasks, s.frames.Keys) && Names(s.stitchTasks, s.frames.Keys)
    && Attends(s.seg, s.frames.Keys) && Attends(s.inf, s.frames.Keys) && Attends(s.stitch, s.frames.Keys)
  }

  /** A frame is done iff exactly one thread is finishing it or it has been released exactly once. */
  ghost predicate FinishedOnce(s: State) {
    s.released + AllFinishing(s) == multiset(DoneIn(s.frames))
  }

  ghost function DispatchedIn(frames: map<nat, Frame>): set<nat> {
    set f | f in frames && frames[f].dispatched
  }

  ghost predicate DispatchedOnce(s: State) {
    s.dispatches == multiset(DispatchedIn(s.frames))
  }

  /** Permits, releases and counters add up. */
  ghost predicate Balanced(c: Config, s: State) {
    && s.permits + AcquiredCount(s) == c.inFlight + |s.released|
    && s.totals.imgDone == |DoneIn(s.frames)|
    && s.totals.tilesOk + s.totals.infErr == s.totals.infDone
    && s.totals.imgErr <= s.totals.imgDone
    && (s.doneEvt ==> s.stalled || s.totals.imgDone >= c.count)
    && (s.totals.imgDone >= c.count && s.totals.imgDone > 0 ==> s.doneEvt)
  }

  ghost predicate Conserved(c: Config, s: State) {
    Named(c, s) && FinishedOnce(s) && DispatchedOnce(s) && Balanced(c, s)
  }
}
