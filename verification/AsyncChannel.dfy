/** The asynchronous call: a coroutine of one I/O thread hands an RPC to a worker coroutine on
    another, which posts to its own reactor, which posts back to the first, which may resume the
    caller.  The protocol is a transition system over threads, their task queues, the coroutines and
    the holders of references to the channel; one action is one step of one thread. */
module AsyncChannel {
  import opened Bytes
  import opened IoThreads

  /** What a reactor's queue holds: the three tasks of the call, and anything else. */
  datatype Task = Noise | ResumeWorker | PostToOrigin | Completion

  /** A reactor's pending tasks and the rest of the batch it swapped out of them. */
  datatype Queue = Queue(batch: seq<Task>, pending: seq<Task>)

  /** Whose code a thread runs: its reactor loop (the main coroutine) or a coroutine it resumed. */
  datatype Control = Main | Worker | Origin

  /** Program counter of the calling coroutine: before the call, inside `CallMethod`, in user code,
      inside `wait`, parked, finished. */
  datatype OriginPc =
    | Before | Called | CallbackSet | Submitted | Assigned
    | Free | WaitEntered | WaitChecked | ParkedInWait | ParkedElsewhere | Ended

  /** Program counter of the worker coroutine. */
  datatype WorkerPc =
    | NoWorker | Prepared | Queued | Calling | ParkedInCall
    | LambdaBuilt | Posted | SelfReset | Returned | OutOfCoFunc | Yielded

  /** Progress of `post_to_origin` on the worker's reactor. */
  datatype PostPc = NotPosted | PostQueued | PostRuns | CompletionBuilt | CompletionAdded | PostReset | PostDone

  /** Progress of `completion` on the origin's reactor. */
  datatype CompPc =
    | NoCompletion | CompQueued | CompRuns | FinishedSet | ClosureRun | Resuming | Suspended | BeforeReset | CompDone

  /** Everything that keeps the channel alive: the user's pointer, locals of `CallMethod`, the
      closure stored in the worker coroutine, the local and the queued copy of each posted task. */
  datatype Holder = User | CallFrame | Callback | LocalPost | PostTask | LocalComp | CompTask

  datatype State = State(
    t0: nat,                    // the channel's origin thread
    mayMigrate: bool,           // whether the caller may be moved to another thread while parked
    hasClosure: bool,
    control: seq<Control>,
    queues: seq<Queue>,
    origin: OriginPc, originThread: nat,
    worker: WorkerPc, workerThread: nat,
    post: PostPc, postThread: nat,
    comp: CompPc,
    failed: bool, finished: bool, needResume: bool,
    pendingCoroutine: bool, inCoFunc: bool,
    refs: set<Holder>, destroyed: bool,
    closureRuns: nat, resumes: nat,
    returnedEarly: bool,        // wait() returned while the call was not finished
    broken: bool)               // a coroutine was resumed that was not parked in wait()

  /** Steps of the calling coroutine. */
  datatype CallerAction =
    | CallFail | CallStart | CallSetCallback | CallSubmit(draw: nat) | CallAssign | CallReturn
    | WaitEnter | WaitCheck | WaitYield | YieldElsewhere | ResumeElsewhere(t: nat) | Finish | DropUser

  /** Steps of the worker coroutine. */
  datatype WorkerAction =
    | WorkerPark | WorkerResume(u: nat)
    | WorkerBuild | WorkerPost | WorkerReset | WorkerReturn | WorkerOut | WorkerYield

  /** Steps of `post_to_origin` and of `completion`. */
  datatype TaskAction =
    | PostBuild | PostAdd | PostResetSelf | PostEnd
    | CompFinish | CompClosure | CompCheck | CompResume | CompBack | CompDrop

  /** Steps of the reactors, and tasks of others. */
  datatype ReactorAction = Swap(t: nat) | RunTask(t: nat) | AddNoise(t: nat)

  datatype Action =
    | Caller(c: CallerAction) | OfWorker(w: WorkerAction) | OfTask(p: TaskAction) | OfReactor(r: ReactorAction)

  predicate WorkerActive(w: WorkerPc) {
    w.Calling? || w.LambdaBuilt? || w.Posted? || w.SelfReset? || w.Returned? || w.OutOfCoFunc?
  }

  predicate OriginActive(o: OriginPc) {
    !o.ParkedInWait? && !o.ParkedElsewhere? && !o.Ended?
  }

  predicate PostBusy(p: PostPc) {
    !p.NotPosted? && !p.PostQueued? && !p.PostDone?
  }

  predicate CompBusy(c: CompPc) {
    !c.NoCompletion? && !c.CompQueued? && !c.CompDone?
  }

  /** The reactor loop is between two tasks. */
  predicate Idle(s: State, t: nat) {
    && t < |s.control| && s.control[t].Main?
    && !(PostBusy(s.post) && t == s.postThread) && !(CompBusy(s.comp) && t == s.t0)
  }

  function AddTask(s: State, t: nat, task: Task): State
    requires t < |s.queues|
  {
    s.(queues := s.queues[t := s.queues[t].(pending := s.queues[t].pending + [task])])
  }

  function Give(s: State, t: nat, c: Control): State
    requires t < |s.control|
  {
    s.(control := s.control[t := c])
  }

  function Drop(s: State, h: Holder): State {
    s.(refs := s.refs - {h})
  }

  function Hold(s: State, h: Holder): State {
    s.(refs := s.refs + {h})
  }

  ghost predicate Shape(s: State) {
    && |s.control| == |s.queues| && s.t0 < |s.control| && s.originThread < |s.control|
    && s.workerThread < |s.control| && s.postThread < |s.control|
  }

  // ----- the calling coroutine, on the thread it runs on -----

  /** The error returns of `CallMethod`: nothing is submitted. */
  function DoCallFail(s: State): Option<State>
    requires Shape(s)
  {
    if s.control[s.originThread].Origin? && s.origin.Before?
    then Some(s.(origin := Free, failed := true, finished := true)) else None
  }

  function DoCallStart(s: State): Option<State>
    requires Shape(s)
  {
    if s.control[s.originThread].Origin? && s.origin.Before?
    then Some(Hold(s, CallFrame).(origin := Called)) else None
  }

  function DoCallSetCallback(s: State): Option<State>
    requires Shape(s)
  {
    if s.control[s.originThread].Origin? && s.origin.Called?
    then Some(Hold(s, Callback).(origin := CallbackSet, worker := Prepared)) else None
  }

  function DoCallSubmit(s: State, draw: nat): Option<State>
    requires Shape(s)
  {
    if s.control[s.originThread].Origin? && s.origin.CallbackSet? && draw < |s.control| then
      var w := PickThread(draw, s.originThread, |s.control|);
      Some(AddTask(s, w, ResumeWorker).(origin := Submitted, worker := Queued, workerThread := w))
    else None
  }

  function DoCallAssign(s: State): Option<State>
    requires Shape(s)
  {
    if s.control[s.originThread].Origin? && s.origin.Submitted?
    then Some(s.(origin := Assigned, pendingCoroutine := true)) else None
  }

  function DoCallReturn(s: State): Option<State>
    requires Shape(s)
  {
    if s.control[s.originThread].Origin? && s.origin.Assigned?
    then Some(Drop(s, CallFrame).(origin := Free)) else None
  }

  function DoWaitEnter(s: State): Option<State>
    requires Shape(s)
  {
    if s.control[s.originThread].Origin? && s.origin.Free? && User in s.refs
    then Some(s.(origin := WaitEntered, needResume := true)) else None
  }

  function DoWaitCheck(s: State): Option<State>
    requires Shape(s)
  {
    if s.control[s.originThread].Origin? && s.origin.WaitEntered?
    then Some(s.(origin := if s.finished then Free else WaitChecked)) else None
  }

  function DoWaitYield(s: State): Option<State>
    requires Shape(s)
  {
    if s.control[s.originThread].Origin? && s.origin.WaitChecked?
    then Some(Give(s, s.originThread, Main).(origin := ParkedInWait)) else None
  }

  function DoYieldElsewhere(s: State): Option<State>
    requires Shape(s)
  {
    if s.control[s.originThread].Origin? && s.origin.Free?
    then Some(Give(s, s.originThread, Main).(origin := ParkedElsewhere)) else None
  }

  function DoResumeElsewhere(s: State, t: nat): Option<State>
    requires Shape(s)
  {
    if s.origin.ParkedElsewhere? && Idle(s, t) && (s.mayMigrate || t == s.originThread)
    then Some(Give(s, t, Origin).(origin := Free, originThread := t)) else None
  }

  function DoFinish(s: State): Option<State>
    requires Shape(s)
  {
    if s.control[s.originThread].Origin? && s.origin.Free?
    then Some(Give(s, s.originThread, Main).(origin := Ended)) else None
  }

  /** The user's pointer may be dropped by anyone, but not during `CallMethod` or `wait`. */
  function DoDropUser(s: State): Option<State>
    requires Shape(s)
  {
    if User in s.refs && (s.origin.Free? || s.origin.ParkedElsewhere? || s.origin.Ended?)
    then Some(Drop(s, User)) else None
  }

  // ----- the worker coroutine: the RPC, which may park and change threads, then the hand-off -----

  function DoWorkerPark(s: State): Option<State>
    requires Shape(s)
  {
    if s.control[s.workerThread].Worker? && s.worker.Calling?
    then Some(Give(s, s.workerThread, Main).(worker := ParkedInCall)) else None
  }

  function DoWorkerResume(s: State, u: nat): Option<State>
    requires Shape(s)
  {
    if s.worker.ParkedInCall? && Idle(s, u)
    then Some(Give(s, u, Worker).(worker := Calling, workerThread := u)) else None
  }

  function DoWorkerBuild(s: State): Option<State>
    requires Shape(s)
  {
    if s.control[s.workerThread].Worker? && s.worker.Calling?
    then Some(Hold(s, LocalPost).(worker := LambdaBuilt)) else None
  }

  function DoWorkerPost(s: State): Option<State>
    requires Shape(s)
  {
    if s.control[s.workerThread].Worker? && s.worker.LambdaBuilt?
    then Some(Hold(AddTask(s, s.workerThread, PostToOrigin), PostTask)
                .(worker := Posted, post := PostQueued, postThread := s.workerThread)) else None
  }

  function DoWorkerReset(s: State): Option<State>
    requires Shape(s)
  {
    if s.control[s.workerThread].Worker? && s.worker.Posted?
    then Some(Drop(s, Callback).(worker := SelfReset)) else None
  }

  function DoWorkerReturn(s: State): Option<State>
    requires Shape(s)
  {
    if s.control[s.workerThread].Worker? && s.worker.SelfReset?
    then Some(Drop(s, LocalPost).(worker := Returned)) else None
  }

  function DoWorkerOut(s: State): Option<State>
    requires Shape(s)
  {
    if s.control[s.workerThread].Worker? && s.worker.Returned?
    then Some(s.(worker := OutOfCoFunc, inCoFunc := false)) else None
  }

  function DoWorkerYield(s: State): Option<State>
    requires Shape(s)
  {
    if s.control[s.workerThread].Worker? && s.worker.OutOfCoFunc?
    then Some(Give(s, s.workerThread, Main).(worker := Yielded)) else None
  }

  // ----- the two posted tasks, on the main coroutine of their threads -----

  function DoPostBuild(s: State): Option<State>
    requires Shape(s)
  {
    if s.control[s.postThread].Main? && s.post.PostRuns?
    then Some(Hold(s, LocalComp).(post := CompletionBuilt)) else None
  }

  function DoPostAdd(s: State): Option<State>
    requires Shape(s)
  {
    if s.control[s.postThread].Main? && s.post.CompletionBuilt?
    then Some(Hold(AddTask(s, s.t0, Completion), CompTask).(post := CompletionAdded, comp := CompQueued)) else None
  }

  function DoPostResetSelf(s: State): Option<State>
    requires Shape(s)
  {
    if s.control[s.postThread].Main? && s.post.CompletionAdded?
    then Some(Drop(s, PostTask).(post := PostReset)) else None
  }

  function DoPostEnd(s: State): Option<State>
    requires Shape(s)
  {
    if s.control[s.postThread].Main? && s.post.PostReset?
    then Some(Drop(s, LocalComp).(post := PostDone)) else None
  }

  function DoCompFinish(s: State): Option<State>
    requires Shape(s)
  {
    if s.control[s.t0].Main? && s.comp.CompRuns?
    then Some(s.(comp := FinishedSet, finished := true)) else None
  }

  function DoCompClosure(s: State): Option<State>
    requires Shape(s)
  {
    if s.control[s.t0].Main? && s.comp.FinishedSet?
    then Some(s.(comp := ClosureRun, closureRuns := s.closureRuns + if s.hasClosure then 1 else 0)) else None
  }

  function DoCompCheck(s: State): Option<State>
    requires Shape(s)
  {
    if s.control[s.t0].Main? && s.comp.ClosureRun?
    then Some(s.(comp := if s.needResume then Resuming else BeforeReset)) else None
  }

  function DoCompResume(s: State): Option<State>
    requires Shape(s)
  {
    if s.control[s.t0].Main? && s.comp.Resuming? then
      var parked := s.origin.ParkedInWait?;
      Some(s.(control := if parked then s.control[s.t0 := Origin] else s.control,
              comp := if parked then Suspended else BeforeReset,
              origin := if parked then Free else s.origin,
              originThread := if parked then s.t0 else s.originThread,
              resumes := s.resumes + if parked then 1 else 0,
              returnedEarly := s.returnedEarly || (parked && !s.finished),
              broken := s.broken || !parked))
    else None
  }

  function DoCompBack(s: State): Option<State>
    requires Shape(s)
  {
    if s.control[s.t0].Main? && s.comp.Suspended?
    then Some(s.(comp := BeforeReset)) else None
  }

  function DoCompDrop(s: State): Option<State>
    requires Shape(s)
  {
    if s.control[s.t0].Main? && s.comp.BeforeReset?
    then Some(Drop(s, CompTask).(comp := CompDone)) else None
  }

  // ----- the reactors -----

  function DoSwap(s: State, t: nat): Option<State>
    requires Shape(s)
  {
    if Idle(s, t) && s.queues[t].batch == []
    then Some(s.(queues := s.queues[t := Queue(s.queues[t].pending, [])])) else None
  }

  function Popped(s: State, t: nat): State
    requires t < |s.queues| && s.queues[t].batch != []
  {
    s.(queues := s.queues[t := s.queues[t].(batch := s.queues[t].batch[1..])])
  }

  function Started(s: State, t: nat, task: Task): State
    requires t < |s.control|
  {
    match task
    case Noise => s
    case ResumeWorker => Give(s, t, Worker).(worker := Calling, workerThread := t, inCoFunc := true)
    case PostToOrigin => s.(post := PostRuns)
    case Completion => s.(comp := CompRuns)
  }

  function DoRunTask(s: State, t: nat): Option<State>
    requires Shape(s)
  {
    if Idle(s, t) && s.queues[t].batch != [] then Some(Started(Popped(s, t), t, s.queues[t].batch[0])) else None
  }

  function DoAddNoise(s: State, t: nat): Option<State>
    requires Shape(s)
  {
    if t < |s.queues| then Some(AddTask(s, t, Noise)) else None
  }

  /** When the last reference goes, the destructor runs and returns the worker coroutine. */
  function Settle(s: State): State {
    s.(destroyed := s.destroyed || s.refs == {})
  }

  function CallerStep(s: State, a: CallerAction): Option<State>
    requires Shape(s)
  {
    match a
    case CallFail => DoCallFail(s)
    case CallStart => DoCallStart(s)
    case CallSetCallback => DoCallSetCallback(s)
    case CallSubmit(draw) => DoCallSubmit(s, draw)
    case CallAssign => DoCallAssign(s)
    case CallReturn => DoCallReturn(s)
    case WaitEnter => DoWaitEnter(s)
    case WaitCheck => DoWaitCheck(s)
    case WaitYield => DoWaitYield(s)
    case YieldElsewhere => DoYieldElsewhere(s)
    case ResumeElsewhere(t) => DoResumeElsewhere(s, t)
    case Finish => DoFinish(s)
    case DropUser => DoDropUser(s)
  }

  function WorkerStep(s: State, a: WorkerAction): Option<State>
    requires Shape(s)
  {
    match a
    case WorkerPark => DoWorkerPark(s)
    case WorkerResume(u) => DoWorkerResume(s, u)
    case WorkerBuild => DoWorkerBuild(s)
    case WorkerPost => DoWorkerPost(s)
    case WorkerReset => DoWorkerReset(s)
    case WorkerReturn => DoWorkerReturn(s)
    case WorkerOut => DoWorkerOut(s)
    case WorkerYield => DoWorkerYield(s)
  }

  function TaskStep(s: State, a: TaskAction): Option<State>
    requires Shape(s)
  {
    match a
    case PostBuild => DoPostBuild(s)
    case PostAdd => DoPostAdd(s)
    case PostResetSelf => DoPostResetSelf(s)
    case PostEnd => DoPostEnd(s)
    case CompFinish => DoCompFinish(s)
    case CompClosure => DoCompClosure(s)
    case CompCheck => DoCompCheck(s)
    case CompResume => DoCompResume(s)
    case CompBack => DoCompBack(s)
    case CompDrop => DoCompDrop(s)
  }

  function ReactorStep(s: State, a: ReactorAction): Option<State>
    requires Shape(s)
  {
    match a
    case Swap(t) => DoSwap(s, t)
    case RunTask(t) => DoRunTask(s, t)
    case AddNoise(t) => DoAddNoise(s, t)
  }

  function RawStep(s: State, a: Action): Option<State>
    requires Shape(s)
  {
    match a
    case Caller(c) => CallerStep(s, c)
    case OfWorker(w) => WorkerStep(s, w)
    case OfTask(p) => TaskStep(s, p)
    case OfReactor(r) => ReactorStep(s, r)
  }

  function Next(s: State, a: Action): Option<State>
    requires Shape(s)
  {
    match RawStep(s, a)
    case None => None
    case Some(r) => Some(Settle(r))
  }

  /** The channel just created by a coroutine running on `t0`; the queues hold nothing of the call. */
  ghost predicate Init(s: State) {
    && Shape(s)
    && s.control[s.t0].Origin? && (forall t :: 0 <= t < |s.control| && t != s.t0 ==> s.control[t].Main?)
    && (forall t, i :: 0 <= t < |s.queues| && 0 <= i < |Tasks(s.queues[t])| ==> Tasks(s.queues[t])[i].Noise?)
    && s.origin.Before? && s.originThread == s.t0 && s.worker.NoWorker? && s.post.NotPosted? && s.comp.NoCompletion?
    && !s.failed && !s.finished && !s.needResume && !s.pendingCoroutine && !s.inCoFunc
    && s.refs == {User} && !s.destroyed && s.closureRuns == 0 && s.resumes == 0 && !s.returnedEarly && !s.broken
  }

  function Tasks(q: Queue): seq<Task> {
    q.batch + q.pending
  }

  // ----- the invariant -----

  ghost predicate ControlInv(s: State)
    requires Shape(s)
  {
    && (forall t :: 0 <= t < |s.control| ==>
          && (s.control[t].Worker? <==> WorkerActive(s.worker) && t == s.workerThread)
          && (s.control[t].Origin? <==> OriginActive(s.origin) && t == s.originThread))
    && (CompBusy(s.comp) && !s.comp.Suspended? ==> s.control[s.t0].Main?)
    && (PostBusy(s.post) ==> s.control[s.postThread].Main?)
    && !(PostBusy(s.post) && CompBusy(s.comp) && s.postThread == s.t0)
  }

  /** Each task of the call is in the one queue it belongs to, once, while it waits there. */
  ghost predicate QueueInv(s: State)
    requires Shape(s)
  {
    forall t :: 0 <= t < |s.queues| ==>
      Holds(s.queues[t], s.worker.Queued? && t == s.workerThread, s.post.PostQueued? && t == s.postThread,
            s.comp.CompQueued? && t == s.t0)
  }

  /** Whether a queue holds each of the three tasks: once or not at all. */
  ghost predicate Holds(q: Queue, resume: bool, post: bool, completion: bool) {
    var m := multiset(Tasks(q));
    && m[ResumeWorker] == (if resume then 1 else 0)
    && m[PostToOrigin] == (if post then 1 else 0)
    && m[Completion] == (if completion then 1 else 0)
  }

  /** Who holds a reference follows from where everyone is. */
  ghost predicate Holders(s: State)
    requires Shape(s)
  {
    && (CallFrame in s.refs <==> s.origin.Called? || s.origin.CallbackSet? || s.origin.Submitted? || s.origin.Assigned?)
    && (Callback in s.refs <==> s.worker.Prepared? || s.worker.Queued? || s.worker.Calling? || s.worker.ParkedInCall?
                                || s.worker.LambdaBuilt? || s.worker.Posted?)
    && (LocalPost in s.refs <==> s.worker.LambdaBuilt? || s.worker.Posted? || s.worker.SelfReset?)
    && (PostTask in s.refs <==> s.post.PostQueued? || s.post.PostRuns? || s.post.CompletionBuilt?
                                || s.post.CompletionAdded?)
    && (LocalComp in s.refs <==> s.post.CompletionBuilt? || s.post.CompletionAdded? || s.post.PostReset?)
    && (CompTask in s.refs <==> s.comp.CompQueued? || CompBusy(s.comp))
    && (!s.origin.Free? && !s.origin.ParkedElsewhere? && !s.origin.Ended? ==> User in s.refs)
  }

  /** The channel lives as long as someone holds it. */
  ghost predicate RefInv(s: State)
    requires Shape(s)
  {
    Holders(s) && (s.destroyed <==> s.refs == {})
  }

  /** How far each party is, relative to the others. */
  ghost predicate StageInv(s: State)
    requires Shape(s)
  {
    && (s.worker.NoWorker? <==> s.origin.Before? || s.origin.Called? || s.failed)
    && (s.worker.Prepared? <==> s.origin.CallbackSet?)
    && (s.failed ==> s.finished && !s.origin.Before? && !s.origin.Called? && !s.origin.CallbackSet?
                     && !s.origin.Submitted? && !s.origin.Assigned? && !s.origin.WaitChecked?
                     && !s.origin.ParkedInWait?)
    && (s.post.NotPosted? <==> s.worker.NoWorker? || s.worker.Prepared? || s.worker.Queued? || s.worker.Calling?
                               || s.worker.ParkedInCall? || s.worker.LambdaBuilt?)
    && (s.worker.Posted? || s.worker.SelfReset? || s.worker.Returned? || s.worker.OutOfCoFunc? ==>
          s.post.PostQueued? && s.postThread == s.workerThread)
    && (s.comp.NoCompletion? <==> s.post.NotPosted? || s.post.PostQueued? || s.post.PostRuns?
                                  || s.post.CompletionBuilt?)
    && (s.pendingCoroutine <==> !s.worker.NoWorker? && !s.worker.Prepared? && !s.origin.Submitted?)
    && (s.inCoFunc <==> (WorkerActive(s.worker) && !s.worker.OutOfCoFunc?) || s.worker.ParkedInCall?)
  }

  /** The handshake between `wait` and the completion. */
  ghost predicate WaitInv(s: State)
    requires Shape(s)
  {
    && s.originThread == s.t0
    && (s.finished <==> s.failed || (CompBusy(s.comp) && !s.comp.CompRuns?) || s.comp.CompDone?)
    && (s.origin.WaitChecked? ==> s.needResume && !s.finished)
    && (s.origin.WaitEntered? ==> s.needResume)
    && (s.origin.ParkedInWait? ==> s.needResume && !s.comp.Suspended? && !s.comp.BeforeReset? && !s.comp.CompDone?)
    && (s.needResume && !s.failed && !s.comp.Suspended? && !s.comp.BeforeReset? && !s.comp.CompDone? ==>
          s.origin.WaitEntered? || s.origin.WaitChecked? || s.origin.ParkedInWait?)
    && (s.comp.Resuming? ==> s.needResume)
    && s.closureRuns == (if s.hasClosure && (s.comp.ClosureRun? || s.comp.Resuming? || s.comp.Suspended?
                                             || s.comp.BeforeReset? || s.comp.CompDone?) then 1 else 0)
    && s.resumes <= (if s.comp.Suspended? || s.comp.BeforeReset? || s.comp.CompDone? then 1 else 0)
    && !s.returnedEarly && !s.broken
  }

  /** The caller cannot leave its thread. */
  predicate Stays(s: State) {
    !s.mayMigrate || |s.control| == 1
  }

  /** What holds wherever the caller runs. */
  ghost predicate Core(s: State) {
    Shape(s) && ControlInv(s) && QueueInv(s) && RefInv(s) && StageInv(s)
  }

  /** The handshake needs a caller that stays. */
  ghost predicate Inv(s: State) {
    Core(s) && (Stays(s) ==> WaitInv(s))
  }

  lemma InitInv(s: State)
    requires Init(s)
    ensures Inv(s)
  {
    forall t, x: Task | 0 <= t < |s.queues| && !x.Noise?
      ensures multiset(Tasks(s.queues[t]))[x] == 0
    {
      NotThere(Tasks(s.queues[t]), x);
    }
  }

  lemma {:induction false} NotThere(q: seq<Task>, x: Task)
    requires forall i :: 0 <= i < |q| ==> q[i] != x
    ensures multiset(q)[x] == 0
  {
    assert x !in multiset(q) by {
      assert x !in q;
    }
  }

  lemma AddCounts(q: Queue, x: Task)
    ensures multiset(Tasks(q.(pending := q.pending + [x]))) == multiset(Tasks(q))[x := multiset(Tasks(q))[x] + 1]
  {
    assert Tasks(q.(pending := q.pending + [x])) == Tasks(q) + [x];
  }

  lemma SwapCounts(q: Queue)
    requires q.batch == []
    ensures Tasks(Queue(q.pending, [])) == Tasks(q)
  {
  }

  lemma PopCounts(q: Queue)
    requires q.batch != []
    ensures var x, rest := q.batch[0], multiset(Tasks(q.(batch := q.batch[1..])));
      multiset(Tasks(q)) == rest[x := rest[x] + 1]
  {
    var rest := q.(batch := q.batch[1..]);
    assert Tasks(q) == [q.batch[0]] + Tasks(rest);
  }

  // ----- every action keeps the invariant -----

  /** The head of a batch is where the invariant says it is. */
  lemma HeadKnown(s: State, t: nat)
    requires Core(s) && t < |s.queues| && s.queues[t].batch != []
    ensures match s.queues[t].batch[0]
            case Noise => true
            case ResumeWorker => s.worker.Queued? && t == s.workerThread
            case PostToOrigin => s.post.PostQueued? && t == s.postThread
            case Completion => s.comp.CompQueued? && t == s.t0
  {
    hide RefInv, ControlInv, StageInv;
    PopCounts(s.queues[t]);
  }

  /** A step that leaves the queues and who waits in them leaves their invariant. */
  lemma SameQueues(s: State, r: State)
    requires Shape(s) && QueueInv(s) && Shape(r) && r.queues == s.queues && r.t0 == s.t0
    requires s.worker.Queued? == r.worker.Queued? && (s.worker.Queued? ==> r.workerThread == s.workerThread)
    requires s.post.PostQueued? == r.post.PostQueued? && (s.post.PostQueued? ==> r.postThread == s.postThread)
    requires s.comp.CompQueued? == r.comp.CompQueued?
    ensures QueueInv(r)
  {
    hide Holds;
  }

  lemma CallFailKeeps(s: State)
    requires Core(s) && DoCallFail(s).Some?
    ensures Core(Settle(DoCallFail(s).value))
  {
    SameQueues(s, DoCallFail(s).value);
    SettleCore(DoCallFail(s).value);
    hide QueueInv, Settle;
  }

  lemma CallStartKeeps(s: State)
    requires Core(s) && DoCallStart(s).Some?
    ensures Core(Settle(DoCallStart(s).value))
  {
    SameQueues(s, DoCallStart(s).value);
    SettleCore(DoCallStart(s).value);
    hide QueueInv, Settle;
  }

  lemma CallSetCallbackKeeps(s: State)
    requires Core(s) && DoCallSetCallback(s).Some?
    ensures Core(Settle(DoCallSetCallback(s).value))
  {
    SameQueues(s, DoCallSetCallback(s).value);
    SettleCore(DoCallSetCallback(s).value);
    hide QueueInv, Settle;
  }

  lemma AddHolds(q: Queue, x: Task, resume: bool, post: bool, completion: bool)
    requires Holds(q, resume, post, completion)
    requires !(resume && x.ResumeWorker?) && !(post && x.PostToOrigin?) && !(completion && x.Completion?)
    ensures Holds(q.(pending := q.pending + [x]), resume || x.ResumeWorker?, post || x.PostToOrigin?,
                  completion || x.Completion?)
  {
    AddCounts(q, x);
  }

  lemma CallSubmitQueues(s: State, draw: nat)
    requires Core(s) && DoCallSubmit(s, draw).Some?
    ensures QueueInv(DoCallSubmit(s, draw).value)
  {
    assert !s.worker.Queued? by {
      hide ControlInv, QueueInv, RefInv;
    }
    hide ControlInv, RefInv, StageInv, Holds, PickThread;
    var w, r := PickThread(draw, s.originThread, |s.control|), DoCallSubmit(s, draw).value;
    AddHolds(s.queues[w], ResumeWorker, false, s.post.PostQueued? && w == s.postThread,
             s.comp.CompQueued? && w == s.t0);
    forall u: nat | u < |r.queues|
      ensures Holds(r.queues[u], r.worker.Queued? && u == r.workerThread, r.post.PostQueued? && u == r.postThread,
                    r.comp.CompQueued? && u == r.t0)
    {
      if u != w {
        assert r.queues[u] == s.queues[u];
      }
    }
  }

  lemma CallSubmitKeeps(s: State, draw: nat)
    requires Core(s) && DoCallSubmit(s, draw).Some?
    ensures Core(Settle(DoCallSubmit(s, draw).value))
  {
    CallSubmitQueues(s, draw);
    SettleCore(DoCallSubmit(s, draw).value);
    hide QueueInv, Settle;
  }

  /** The worker is handed to another thread whenever there is one. */
  lemma SubmitsElsewhere(s: State, draw: nat)
    requires Shape(s) && DoCallSubmit(s, draw).Some? && |s.control| > 1
    ensures DoCallSubmit(s, draw).value.workerThread != s.originThread
  {
  }

  lemma SettleQueues(s: State)
    requires Shape(s) && QueueInv(s)
    ensures QueueInv(Settle(s))
  {
  }

  lemma SettleCore(s: State)
    requires Shape(s) && ControlInv(s) && QueueInv(s) && Holders(s) && StageInv(s) && (s.destroyed ==> s.refs == {})
    ensures Core(Settle(s))
  {
    SettleQueues(s);
    hide QueueInv;
  }

  lemma CallAssignKeeps(s: State)
    requires Core(s) && DoCallAssign(s).Some?
    ensures Core(Settle(DoCallAssign(s).value))
  {
    SameQueues(s, DoCallAssign(s).value);
    SettleCore(DoCallAssign(s).value);
    hide QueueInv, Settle;
  }

  lemma CallReturnKeeps(s: State)
    requires Core(s) && DoCallReturn(s).Some?
    ensures Core(Settle(DoCallReturn(s).value))
  {
    SameQueues(s, DoCallReturn(s).value);
    SettleCore(DoCallReturn(s).value);
    hide QueueInv, Settle;
  }

  lemma WaitEnterKeeps(s: State)
    requires Core(s) && DoWaitEnter(s).Some?
    ensures Core(Settle(DoWaitEnter(s).value))
  {
    SameQueues(s, DoWaitEnter(s).value);
    SettleCore(DoWaitEnter(s).value);
    hide QueueInv, Settle;
  }

  lemma WaitCheckKeeps(s: State)
    requires Core(s) && DoWaitCheck(s).Some?
    ensures Core(Settle(DoWaitCheck(s).value))
  {
    SameQueues(s, DoWaitCheck(s).value);
    SettleCore(DoWaitCheck(s).value);
    hide QueueInv, Settle;
  }

  lemma WaitYieldKeeps(s: State)
    requires Core(s) && DoWaitYield(s).Some?
    ensures Core(Settle(DoWaitYield(s).value))
  {
    SameQueues(s, DoWaitYield(s).value);
    SettleCore(DoWaitYield(s).value);
    hide QueueInv, Settle;
  }

  lemma YieldElsewhereKeeps(s: State)
    requires Core(s) && DoYieldElsewhere(s).Some?
    ensures Core(Settle(DoYieldElsewhere(s).value))
  {
    SameQueues(s, DoYieldElsewhere(s).value);
    SettleCore(DoYieldElsewhere(s).value);
    hide QueueInv, Settle;
  }

  lemma ResumeElsewhereKeeps(s: State, t: nat)
    requires Core(s) && DoResumeElsewhere(s, t).Some?
    ensures Core(Settle(DoResumeElsewhere(s, t).value))
  {
    SameQueues(s, DoResumeElsewhere(s, t).value);
    SettleCore(DoResumeElsewhere(s, t).value);
    hide QueueInv, Settle;
  }

  lemma FinishKeeps(s: State)
    requires Core(s) && DoFinish(s).Some?
    ensures Core(Settle(DoFinish(s).value))
  {
    SameQueues(s, DoFinish(s).value);
    SettleCore(DoFinish(s).value);
    hide QueueInv, Settle;
  }

  lemma DropUserKeeps(s: State)
    requires Core(s) && DoDropUser(s).Some?
    ensures Core(Settle(DoDropUser(s).value))
  {
    SameQueues(s, DoDropUser(s).value);
    SettleCore(DoDropUser(s).value);
    hide QueueInv, Settle;
  }

  lemma WorkerParkKeeps(s: State)
    requires Core(s) && DoWorkerPark(s).Some?
    ensures Core(Settle(DoWorkerPark(s).value))
  {
    SameQueues(s, DoWorkerPark(s).value);
    SettleCore(DoWorkerPark(s).value);
    hide QueueInv, Settle;
  }

  lemma WorkerResumeKeeps(s: State, u: nat)
    requires Core(s) && DoWorkerResume(s, u).Some?
    ensures Core(Settle(DoWorkerResume(s, u).value))
  {
    SameQueues(s, DoWorkerResume(s, u).value);
    SettleCore(DoWorkerResume(s, u).value);
    hide QueueInv, Settle;
  }

  lemma WorkerBuildKeeps(s: State)
    requires Core(s) && DoWorkerBuild(s).Some?
    ensures Core(Settle(DoWorkerBuild(s).value))
  {
    SameQueues(s, DoWorkerBuild(s).value);
    SettleCore(DoWorkerBuild(s).value);
    hide QueueInv, Settle;
  }

  lemma WorkerPostQueues(s: State)
    requires Core(s) && DoWorkerPost(s).Some?
    ensures QueueInv(DoWorkerPost(s).value)
  {
    assert !s.post.PostQueued? by {
      hide ControlInv, QueueInv, RefInv;
    }
    hide ControlInv, RefInv, StageInv, Holds;
    var t, r := s.workerThread, DoWorkerPost(s).value;
    AddHolds(s.queues[t], PostToOrigin, s.worker.Queued?, false, s.comp.CompQueued? && t == s.t0);
    forall u: nat | u < |r.queues|
      ensures Holds(r.queues[u], r.worker.Queued? && u == r.workerThread, r.post.PostQueued? && u == r.postThread,
                    r.comp.CompQueued? && u == r.t0)
    {
      if u != t {
        assert r.queues[u] == s.queues[u];
      }
    }
  }

  lemma WorkerPostKeeps(s: State)
    requires Core(s) && DoWorkerPost(s).Some?
    ensures Core(Settle(DoWorkerPost(s).value))
  {
    WorkerPostQueues(s);
    SettleCore(DoWorkerPost(s).value);
    hide QueueInv, Settle;
  }

  lemma WorkerResetKeeps(s: State)
    requires Core(s) && DoWorkerReset(s).Some?
    ensures Core(Settle(DoWorkerReset(s).value))
  {
    SameQueues(s, DoWorkerReset(s).value);
    SettleCore(DoWorkerReset(s).value);
    hide QueueInv, Settle;
  }

  lemma WorkerReturnKeeps(s: State)
    requires Core(s) && DoWorkerReturn(s).Some?
    ensures Core(Settle(DoWorkerReturn(s).value))
  {
    SameQueues(s, DoWorkerReturn(s).value);
    SettleCore(DoWorkerReturn(s).value);
    hide QueueInv, Settle;
  }

  lemma WorkerOutKeeps(s: State)
    requires Core(s) && DoWorkerOut(s).Some?
    ensures Core(Settle(DoWorkerOut(s).value))
  {
    SameQueues(s, DoWorkerOut(s).value);
    SettleCore(DoWorkerOut(s).value);
    hide QueueInv, Settle;
  }

  lemma WorkerYieldKeeps(s: State)
    requires Core(s) && DoWorkerYield(s).Some?
    ensures Core(Settle(DoWorkerYield(s).value))
  {
    SameQueues(s, DoWorkerYield(s).value);
    SettleCore(DoWorkerYield(s).value);
    hide QueueInv, Settle;
  }

  lemma PostBuildKeeps(s: State)
    requires Core(s) && DoPostBuild(s).Some?
    ensures Core(Settle(DoPostBuild(s).value))
  {
    SameQueues(s, DoPostBuild(s).value);
    SettleCore(DoPostBuild(s).value);
    hide QueueInv, Settle;
  }

  lemma PostAddQueues(s: State)
    requires Core(s) && DoPostAdd(s).Some?
    ensures QueueInv(DoPostAdd(s).value)
  {
    assert !s.comp.CompQueued? by {
      hide ControlInv, QueueInv, RefInv;
    }
    hide ControlInv, RefInv, StageInv, Holds;
    var r := DoPostAdd(s).value;
    AddHolds(s.queues[s.t0], Completion, s.worker.Queued? && s.t0 == s.workerThread,
             s.post.PostQueued? && s.t0 == s.postThread, false);
    forall u: nat | u < |r.queues|
      ensures Holds(r.queues[u], r.worker.Queued? && u == r.workerThread, r.post.PostQueued? && u == r.postThread,
                    r.comp.CompQueued? && u == r.t0)
    {
      if u != s.t0 {
        assert r.queues[u] == s.queues[u];
      }
    }
  }

  lemma PostAddKeeps(s: State)
    requires Core(s) && DoPostAdd(s).Some?
    ensures Core(Settle(DoPostAdd(s).value))
  {
    PostAddQueues(s);
    SettleCore(DoPostAdd(s).value);
    hide QueueInv, Settle;
  }

  lemma PostResetSelfKeeps(s: State)
    requires Core(s) && DoPostResetSelf(s).Some?
    ensures Core(Settle(DoPostResetSelf(s).value))
  {
    SameQueues(s, DoPostResetSelf(s).value);
    SettleCore(DoPostResetSelf(s).value);
    hide QueueInv, Settle;
  }

  lemma PostEndKeeps(s: State)
    requires Core(s) && DoPostEnd(s).Some?
    ensures Core(Settle(DoPostEnd(s).value))
  {
    SameQueues(s, DoPostEnd(s).value);
    SettleCore(DoPostEnd(s).value);
    hide QueueInv, Settle;
  }

  lemma CompFinishKeeps(s: State)
    requires Core(s) && DoCompFinish(s).Some?
    ensures Core(Settle(DoCompFinish(s).value))
  {
    SameQueues(s, DoCompFinish(s).value);
    SettleCore(DoCompFinish(s).value);
    hide QueueInv, Settle;
  }

  lemma CompClosureKeeps(s: State)
    requires Core(s) && DoCompClosure(s).Some?
    ensures Core(Settle(DoCompClosure(s).value))
  {
    SameQueues(s, DoCompClosure(s).value);
    SettleCore(DoCompClosure(s).value);
    hide QueueInv, Settle;
  }

  lemma CompCheckKeeps(s: State)
    requires Core(s) && DoCompCheck(s).Some?
    ensures Core(Settle(DoCompCheck(s).value))
  {
    SameQueues(s, DoCompCheck(s).value);
    SettleCore(DoCompCheck(s).value);
    hide QueueInv, Settle;
  }

  /** The caller gets its thread from the reactor that resumes it. */
  lemma CompResumeControl(s: State)
    requires Core(s) && DoCompResume(s).Some?
    ensures var r := DoCompResume(s).value; Shape(r) && ControlInv(r)
  {
    hide QueueInv, RefInv;
  }

  lemma CompResumeKeeps(s: State)
    requires Core(s) && DoCompResume(s).Some?
    ensures Core(Settle(DoCompResume(s).value))
  {
    CompResumeControl(s);
    SameQueues(s, DoCompResume(s).value);
    SettleCore(DoCompResume(s).value);
    hide QueueInv, ControlInv, Settle;
  }

  lemma CompBackKeeps(s: State)
    requires Core(s) && DoCompBack(s).Some?
    ensures Core(Settle(DoCompBack(s).value))
  {
    SameQueues(s, DoCompBack(s).value);
    SettleCore(DoCompBack(s).value);
    hide QueueInv, Settle;
  }

  lemma CompDropKeeps(s: State)
    requires Core(s) && DoCompDrop(s).Some?
    ensures Core(Settle(DoCompDrop(s).value))
  {
    SameQueues(s, DoCompDrop(s).value);
    SettleCore(DoCompDrop(s).value);
    hide QueueInv, Settle;
  }

  /** Everything but the queues. */
  ghost predicate Rest(s: State)
    requires Shape(s)
  {
    ControlInv(s) && RefInv(s) && StageInv(s)
  }

  lemma QueuesOnly(s: State, queues: seq<Queue>)
    requires Shape(s) && Rest(s) && |queues| == |s.queues|
    ensures Shape(s.(queues := queues)) && Rest(s.(queues := queues)) && Settle(s) == s
  {
  }

  lemma SwapKeeps(s: State, t: nat)
    requires Core(s) && DoSwap(s, t).Some?
    ensures Core(Settle(DoSwap(s, t).value))
  {
    var r := DoSwap(s, t).value;
    SwapCounts(s.queues[t]);
    QueuesOnly(s, r.queues);
    QueuesOnly(r, r.queues);
    hide ControlInv, RefInv, StageInv;
  }

  lemma PopHolds(q: Queue, resume: bool, post: bool, completion: bool)
    requires q.batch != [] && Holds(q, resume, post, completion)
    ensures var x := q.batch[0];
      Holds(q.(batch := q.batch[1..]), resume && !x.ResumeWorker?, post && !x.PostToOrigin?,
            completion && !x.Completion?)
  {
    PopCounts(q);
  }

  /** A started task is the one that no longer waits. */
  lemma StartedFlags(p: State, t: nat, x: Task, u: nat)
    requires t < |p.control|
    requires match x
             case Noise => true
             case ResumeWorker => p.worker.Queued? && t == p.workerThread
             case PostToOrigin => p.post.PostQueued? && t == p.postThread
             case Completion => p.comp.CompQueued? && t == p.t0
    ensures var r := Started(p, t, x);
      && r.queues == p.queues && r.t0 == p.t0 && |r.control| == |p.control| && r.originThread == p.originThread
      && (Shape(p) ==> Shape(r))
      && (r.worker.Queued? && u == r.workerThread <==> p.worker.Queued? && u == p.workerThread && !x.ResumeWorker?)
      && (r.post.PostQueued? && u == r.postThread <==> p.post.PostQueued? && u == p.postThread && !x.PostToOrigin?)
      && (r.comp.CompQueued? && u == r.t0 <==> p.comp.CompQueued? && u == p.t0 && !x.Completion?)
  {
    match x
    case Noise => case ResumeWorker => case PostToOrigin => case Completion =>
  }

  lemma RunTaskHolds(s: State, t: nat, u: nat)
    requires Core(s) && DoRunTask(s, t).Some? && u < |s.queues|
    ensures var r := DoRunTask(s, t).value;
      && Shape(r) && |r.queues| == |s.queues|
      && Holds(r.queues[u], r.worker.Queued? && u == r.workerThread, r.post.PostQueued? && u == r.postThread,
               r.comp.CompQueued? && u == r.t0)
  {
    hide ControlInv, RefInv, StageInv, Holds, Started;
    HeadKnown(s, t);
    var x := s.queues[t].batch[0];
    StartedFlags(Popped(s, t), t, x, u);
    if u == t {
      PopHolds(s.queues[t], s.worker.Queued? && t == s.workerThread, s.post.PostQueued? && t == s.postThread,
               s.comp.CompQueued? && t == s.t0);
    } else {
      match x {
        case Noise => case ResumeWorker => case PostToOrigin => case Completion =>
      }
    }
  }

  lemma RunTaskQueues(s: State, t: nat)
    requires Core(s) && DoRunTask(s, t).Some?
    ensures var r := DoRunTask(s, t).value; Shape(r) && QueueInv(r)
  {
    hide ControlInv, RefInv, StageInv, Holds, Idle, DoRunTask;
    var r := DoRunTask(s, t).value;
    RunTaskHolds(s, t, s.t0);
    forall u: nat | u < |s.queues|
      ensures Holds(r.queues[u], r.worker.Queued? && u == r.workerThread, r.post.PostQueued? && u == r.postThread,
                    r.comp.CompQueued? && u == r.t0)
    {
      RunTaskHolds(s, t, u);
    }
  }

  lemma StartedControl(s: State, t: nat, task: Task)
    requires Shape(s) && ControlInv(s) && Idle(s, t)
    requires match task
             case Noise => true
             case ResumeWorker => s.worker.Queued? && t == s.workerThread
             case PostToOrigin => s.post.PostQueued? && t == s.postThread
             case Completion => s.comp.CompQueued? && t == s.t0
    ensures Shape(Started(s, t, task)) && ControlInv(Started(s, t, task))
  {
    match task
    case Noise => case ResumeWorker => case PostToOrigin => case Completion =>
  }

  lemma StartedStage(s: State, t: nat, task: Task)
    requires Shape(s) && Rest(s) && Idle(s, t)
    requires match task
             case Noise => true
             case ResumeWorker => s.worker.Queued? && t == s.workerThread
             case PostToOrigin => s.post.PostQueued? && t == s.postThread
             case Completion => s.comp.CompQueued? && t == s.t0
    ensures Shape(Started(s, t, task)) && RefInv(Started(s, t, task)) && StageInv(Started(s, t, task))
  {
    match task
    case Noise => case ResumeWorker => case PostToOrigin => case Completion =>
  }

  lemma SettleRest(s: State)
    requires Shape(s) && Rest(s)
    ensures Settle(s) == s
  {
  }

  lemma StartedKeeps(s: State, t: nat, task: Task)
    requires Shape(s) && Rest(s) && Idle(s, t)
    requires match task
             case Noise => true
             case ResumeWorker => s.worker.Queued? && t == s.workerThread
             case PostToOrigin => s.post.PostQueued? && t == s.postThread
             case Completion => s.comp.CompQueued? && t == s.t0
    ensures var r := Settle(Started(s, t, task)); Shape(r) && Rest(r)
  {
    hide ControlInv, RefInv, StageInv, Settle, Started;
    StartedControl(s, t, task);
    StartedStage(s, t, task);
    SettleRest(Started(s, t, task));
  }

  lemma RunTaskRest(s: State, t: nat)
    requires Core(s) && DoRunTask(s, t).Some?
    ensures var r := DoRunTask(s, t).value; Shape(Settle(r)) && Rest(Settle(r))
  {
    hide QueueInv, ControlInv, RefInv, StageInv, Started;
    HeadKnown(s, t);
    QueuesOnly(s, Popped(s, t).queues);
    var p, task := Popped(s, t), s.queues[t].batch[0];
    assert Shape(p) && Rest(p) && Idle(p, t);
    hide Rest, Idle;
    match task {
      case Noise => case ResumeWorker => case PostToOrigin => case Completion =>
    }
    StartedKeeps(p, t, task);
  }

  lemma RunTaskKeeps(s: State, t: nat)
    requires Core(s) && DoRunTask(s, t).Some?
    ensures Core(Settle(DoRunTask(s, t).value))
  {
    hide DoRunTask, ControlInv, RefInv, StageInv, QueueInv;
    RunTaskQueues(s, t);
    RunTaskRest(s, t);
    SettleQueues(DoRunTask(s, t).value);
  }

  lemma AddNoiseKeeps(s: State, t: nat)
    requires Core(s) && DoAddNoise(s, t).Some?
    ensures Core(Settle(DoAddNoise(s, t).value))
  {
    var r := DoAddNoise(s, t).value;
    AddCounts(s.queues[t], Noise);
    QueuesOnly(s, r.queues);
    QueuesOnly(r, r.queues);
    hide ControlInv, RefInv, StageInv;
  }

  lemma CallerStepKeeps(s: State, a: CallerAction)
    requires Core(s) && CallerStep(s, a).Some?
    ensures Core(Settle(CallerStep(s, a).value))
  {
    hide Core, Settle, DoCallFail, DoCallStart, DoCallSetCallback, DoCallSubmit, DoCallAssign,
      DoCallReturn, DoWaitEnter, DoWaitCheck, DoWaitYield, DoYieldElsewhere, DoResumeElsewhere,
      DoFinish, DoDropUser;
    match a
    case CallFail => CallFailKeeps(s);
    case CallStart => CallStartKeeps(s);
    case CallSetCallback => CallSetCallbackKeeps(s);
    case CallSubmit(draw) => CallSubmitKeeps(s, draw);
    case CallAssign => CallAssignKeeps(s);
    case CallReturn => CallReturnKeeps(s);
    case WaitEnter => WaitEnterKeeps(s);
    case WaitCheck => WaitCheckKeeps(s);
    case WaitYield => WaitYieldKeeps(s);
    case YieldElsewhere => YieldElsewhereKeeps(s);
    case ResumeElsewhere(t) => ResumeElsewhereKeeps(s, t);
    case Finish => FinishKeeps(s);
    case DropUser => DropUserKeeps(s);
  }

  lemma WorkerStepKeeps(s: State, a: WorkerAction)
    requires Core(s) && WorkerStep(s, a).Some?
    ensures Core(Settle(WorkerStep(s, a).value))
  {
    hide Core, Settle, DoWorkerPark, DoWorkerResume, DoWorkerBuild, DoWorkerPost, DoWorkerReset,
      DoWorkerReturn, DoWorkerOut, DoWorkerYield;
    match a
    case WorkerPark => WorkerParkKeeps(s);
    case WorkerResume(u) => WorkerResumeKeeps(s, u);
    case WorkerBuild => WorkerBuildKeeps(s);
    case WorkerPost => WorkerPostKeeps(s);
    case WorkerReset => WorkerResetKeeps(s);
    case WorkerReturn => WorkerReturnKeeps(s);
    case WorkerOut => WorkerOutKeeps(s);
    case WorkerYield => WorkerYieldKeeps(s);
  }

  lemma TaskStepKeeps(s: State, a: TaskAction)
    requires Core(s) && TaskStep(s, a).Some?
    ensures Core(Settle(TaskStep(s, a).value))
  {
    hide Core, Settle, DoPostBuild, DoPostAdd, DoPostResetSelf, DoPostEnd, DoCompFinish, DoCompClosure,
      DoCompCheck, DoCompResume, DoCompBack, DoCompDrop;
    match a
    case PostBuild => PostBuildKeeps(s);
    case PostAdd => PostAddKeeps(s);
    case PostResetSelf => PostResetSelfKeeps(s);
    case PostEnd => PostEndKeeps(s);
    case CompFinish => CompFinishKeeps(s);
    case CompClosure => CompClosureKeeps(s);
    case CompCheck => CompCheckKeeps(s);
    case CompResume => CompResumeKeeps(s);
    case CompBack => CompBackKeeps(s);
    case CompDrop => CompDropKeeps(s);
  }

  lemma ReactorStepKeeps(s: State, a: ReactorAction)
    requires Core(s) && ReactorStep(s, a).Some?
    ensures Core(Settle(ReactorStep(s, a).value))
  {
    hide Core, Settle, DoSwap, DoRunTask, DoAddNoise;
    match a
    case Swap(t) => SwapKeeps(s, t);
    case RunTask(t) => RunTaskKeeps(s, t);
    case AddNoise(t) => AddNoiseKeeps(s, t);
  }

  /** Every step of every thread keeps what holds wherever the caller runs. */
  lemma NextKeepsCore(s: State, a: Action)
    requires Core(s) && Next(s, a).Some?
    ensures Core(Next(s, a).value)
  {
    hide Core, Settle, CallerStep, WorkerStep, TaskStep, ReactorStep;
    match a
    case Caller(c) => CallerStepKeeps(s, c);
    case OfWorker(w) => WorkerStepKeeps(s, w);
    case OfTask(p) => TaskStepKeeps(s, p);
    case OfReactor(r) => ReactorStepKeeps(s, r);
  }

  /** `CallMethod` is not part of the handshake. */
  lemma CallingWaits(s: State, c: CallerAction)
    requires Shape(s) && StageInv(s) && WaitInv(s) && CallerStep(s, c).Some?
    requires c.CallFail? || c.CallStart? || c.CallSetCallback? || c.CallSubmit? || c.CallAssign? || c.CallReturn?
    ensures Shape(CallerStep(s, c).value) && WaitInv(CallerStep(s, c).value)
  {
    hide DoWaitEnter, DoWaitCheck, DoWaitYield, DoYieldElsewhere, DoResumeElsewhere, DoFinish, DoDropUser;
    match c
    case CallFail => case CallStart => case CallSetCallback => case CallSubmit(_) => case CallAssign =>
    case CallReturn => case _ =>
  }

  /** A running caller has its thread, so the completion is not in the middle of a step there. */
  lemma RunningWaits(s: State, c: CallerAction)
    requires Shape(s) && ControlInv(s) && StageInv(s) && WaitInv(s) && Stays(s) && CallerStep(s, c).Some?
    requires c.WaitEnter? || c.WaitCheck? || c.WaitYield? || c.YieldElsewhere? || c.ResumeElsewhere? || c.Finish?
             || c.DropUser?
    ensures Shape(CallerStep(s, c).value) && WaitInv(CallerStep(s, c).value)
  {
    hide DoCallFail, DoCallStart, DoCallSetCallback, DoCallSubmit, DoCallAssign, DoCallReturn;
    match c
    case WaitEnter => case WaitCheck => case WaitYield => case YieldElsewhere => case ResumeElsewhere(_) =>
    case Finish => case DropUser => case _ =>
  }

  lemma CallerWaits(s: State, c: CallerAction)
    requires Shape(s) && ControlInv(s) && StageInv(s) && WaitInv(s) && Stays(s) && CallerStep(s, c).Some?
    ensures Shape(CallerStep(s, c).value) && WaitInv(CallerStep(s, c).value)
  {
    hide CallerStep, ControlInv, StageInv, WaitInv;
    match c
    case CallFail => CallingWaits(s, c);
    case CallStart => CallingWaits(s, c);
    case CallSetCallback => CallingWaits(s, c);
    case CallSubmit(_) => CallingWaits(s, c);
    case CallAssign => CallingWaits(s, c);
    case CallReturn => CallingWaits(s, c);
    case _ => RunningWaits(s, c);
  }

  lemma WorkerWaits(s: State, w: WorkerAction)
    requires Shape(s) && StageInv(s) && WaitInv(s) && WorkerStep(s, w).Some?
    ensures Shape(WorkerStep(s, w).value) && WaitInv(WorkerStep(s, w).value)
  {
    match w
    case WorkerPark => case WorkerResume(_) => case WorkerBuild => case WorkerPost =>
    case WorkerReset => case WorkerReturn => case WorkerOut => case WorkerYield =>
  }

  lemma PostWaits(s: State, p: TaskAction)
    requires Shape(s) && StageInv(s) && WaitInv(s) && TaskStep(s, p).Some?
    requires p.PostBuild? || p.PostAdd? || p.PostResetSelf? || p.PostEnd?
    ensures Shape(TaskStep(s, p).value) && WaitInv(TaskStep(s, p).value)
  {
    hide DoCompFinish, DoCompClosure, DoCompCheck, DoCompResume, DoCompBack, DoCompDrop;
  }

  lemma CompWaits(s: State, p: TaskAction)
    requires Shape(s) && ControlInv(s) && StageInv(s) && WaitInv(s) && TaskStep(s, p).Some?
    requires !p.PostBuild? && !p.PostAdd? && !p.PostResetSelf? && !p.PostEnd?
    ensures Shape(TaskStep(s, p).value) && WaitInv(TaskStep(s, p).value)
  {
    hide DoPostBuild, DoPostAdd, DoPostResetSelf, DoPostEnd;
    match p
    case CompFinish => case CompClosure => case CompCheck => case CompResume => case CompBack => case CompDrop =>
    case _ =>
  }

  lemma TaskWaits(s: State, p: TaskAction)
    requires Shape(s) && ControlInv(s) && StageInv(s) && WaitInv(s) && TaskStep(s, p).Some?
    ensures Shape(TaskStep(s, p).value) && WaitInv(TaskStep(s, p).value)
  {
    hide TaskStep, ControlInv, StageInv, WaitInv;
    if p.PostBuild? || p.PostAdd? || p.PostResetSelf? || p.PostEnd? {
      PostWaits(s, p);
    } else {
      CompWaits(s, p);
    }
  }

  lemma StartedWaits(s: State, t: nat, task: Task)
    requires Shape(s) && WaitInv(s) && t < |s.control|
    requires task.Completion? ==> s.comp.CompQueued?
    ensures Shape(Started(s, t, task)) && WaitInv(Started(s, t, task))
  {
    match task
    case Noise => case ResumeWorker => case PostToOrigin => case Completion =>
  }

  lemma ReactorWaits(s: State, r: ReactorAction)
    requires Core(s) && WaitInv(s) && ReactorStep(s, r).Some?
    ensures Shape(ReactorStep(s, r).value) && WaitInv(ReactorStep(s, r).value)
  {
    match r
    case Swap(_) =>
    case AddNoise(_) =>
    case RunTask(t) =>
      HeadKnown(s, t);
      hide ControlInv, QueueInv, RefInv, StageInv;
      StartedWaits(Popped(s, t), t, s.queues[t].batch[0]);
  }

  /** The handshake is kept for a caller that stays. */
  lemma NextKeepsWait(s: State, a: Action)
    requires Core(s) && Stays(s) && WaitInv(s) && Next(s, a).Some?
    ensures Shape(Next(s, a).value) && WaitInv(Next(s, a).value)
  {
    hide CallerStep, WorkerStep, TaskStep, ReactorStep, ControlInv, QueueInv, RefInv, StageInv;
    match a
    case Caller(c) => CallerWaits(s, c);
    case OfWorker(w) => WorkerWaits(s, w);
    case OfTask(p) => TaskWaits(s, p);
    case OfReactor(r) => ReactorWaits(s, r);
  }

  lemma NextKeeps(s: State, a: Action)
    requires Inv(s) && Next(s, a).Some?
    ensures Inv(Next(s, a).value)
  {
    assert Shape(s);
    hide Core, WaitInv, Next;
    NextKeepsCore(s, a);
    NextStaysPut(s, a);
    if Stays(s) {
      NextKeepsWait(s, a);
    }
  }

  // ----- every run -----

  ghost predicate Reaches(s: State, run: seq<Action>, r: State)
    decreases |run|
  {
    if run == [] then r == s
    else Shape(s) && Next(s, run[0]).Some? && Reaches(Next(s, run[0]).value, run[1..], r)
  }

  lemma {:induction false} RunKeeps(s: State, run: seq<Action>, r: State)
    requires Inv(s) && Reaches(s, run, r)
    ensures Inv(r)
    decreases |run|
  {
    hide Next;
    if run != [] {
      NextKeeps(s, run[0]);
      RunKeeps(Next(s, run[0]).value, run[1..], r);
    }
  }

  /** The worker coroutine is not running anywhere and is out of its callback. */
  ghost predicate WorkerGone(s: State) {
    && (s.worker.NoWorker? || s.worker.Yielded?)
    && !s.inCoFunc && (forall t :: 0 <= t < |s.control| ==> !s.control[t].Worker?)
  }

  /** Hand-off safety, over every interleaving, wherever the caller runs: when the channel has been
      destroyed, and the worker coroutine with it returned to the pool, that coroutine has left
      `CoFunction` and yielded; it is returned exactly if one was obtained. */
  lemma HandOffSafety(s0: State, run: seq<Action>, s: State)
    requires Init(s0) && Reaches(s0, run, s)
    ensures s.destroyed ==> WorkerGone(s) && (s.pendingCoroutine <==> s.worker.Yielded?)
    ensures s.destroyed <==> s.refs == {}
  {
    InitInv(s0);
    RunKeeps(s0, run, s);
  }

  /** Completion exactly once, over every interleaving with a caller that stays: the closure runs at
      most once, and once when the completion is through; the caller is resumed at most once, only
      while parked in `wait`, and `wait` never returns from its park with the call unfinished. */
  lemma CompletionOnce(s0: State, run: seq<Action>, s: State)
    requires Init(s0) && Stays(s0) && Reaches(s0, run, s)
    ensures s.closureRuns <= 1 && s.resumes <= 1 && !s.broken && !s.returnedEarly
    ensures s.comp.CompDone? ==> s.finished && (s.hasClosure ==> s.closureRuns == 1) && !s.origin.ParkedInWait?
    ensures s.origin.ParkedInWait? ==> s.needResume && !s.destroyed
  {
    InitInv(s0);
    RunKeeps(s0, run, s);
    StaysPut(s0, run, s);
  }

  lemma {:induction false} StaysPut(s: State, run: seq<Action>, r: State)
    requires Reaches(s, run, r)
    ensures r.mayMigrate == s.mayMigrate && |r.control| == |s.control|
    decreases |run|
  {
    hide Next;
    if run != [] {
      NextStaysPut(s, run[0]);
      StaysPut(Next(s, run[0]).value, run[1..], r);
    }
  }

  lemma NextStaysPut(s: State, a: Action)
    requires Shape(s) && Next(s, a).Some?
    ensures Next(s, a).value.mayMigrate == s.mayMigrate && |Next(s, a).value.control| == |s.control|
  {
    hide CallerStep, WorkerStep, TaskStep, ReactorStep;
    match a
    case Caller(c) => CallerStaysPut(s, c);
    case OfWorker(w) => WorkerStaysPut(s, w);
    case OfTask(p) => TaskStaysPut(s, p);
    case OfReactor(r) => ReactorStaysPut(s, r);
  }

  lemma CallerStaysPut(s: State, c: CallerAction)
    requires Shape(s) && CallerStep(s, c).Some?
    ensures CallerStep(s, c).value.mayMigrate == s.mayMigrate && |CallerStep(s, c).value.control| == |s.control|
  {
    match c
    case CallFail => case CallStart => case CallSetCallback => case CallSubmit(_) => case CallAssign =>
    case CallReturn => case WaitEnter => case WaitCheck => case WaitYield => case YieldElsewhere =>
    case ResumeElsewhere(_) => case Finish => case DropUser =>
  }

  lemma WorkerStaysPut(s: State, w: WorkerAction)
    requires Shape(s) && WorkerStep(s, w).Some?
    ensures WorkerStep(s, w).value.mayMigrate == s.mayMigrate && |WorkerStep(s, w).value.control| == |s.control|
  {
    match w
    case WorkerPark => case WorkerResume(_) => case WorkerBuild => case WorkerPost =>
    case WorkerReset => case WorkerReturn => case WorkerOut => case WorkerYield =>
  }

  lemma TaskStaysPut(s: State, p: TaskAction)
    requires Shape(s) && TaskStep(s, p).Some?
    ensures TaskStep(s, p).value.mayMigrate == s.mayMigrate && |TaskStep(s, p).value.control| == |s.control|
  {
    match p
    case PostBuild => case PostAdd => case PostResetSelf => case PostEnd =>
    case CompFinish => case CompClosure => case CompCheck => case CompResume => case CompBack => case CompDrop =>
  }

  lemma ReactorStaysPut(s: State, r: ReactorAction)
    requires Shape(s) && ReactorStep(s, r).Some?
    ensures ReactorStep(s, r).value.mayMigrate == s.mayMigrate && |ReactorStep(s, r).value.control| == |s.control|
  {
    hide Started;
    match r
    case Swap(_) =>
    case AddNoise(_) =>
    case RunTask(t) =>
      StartedStaysPut(Popped(s, t), t, s.queues[t].batch[0]);
  }

  lemma StartedStaysPut(s: State, t: nat, task: Task)
    requires t < |s.control|
    ensures Started(s, t, task).mayMigrate == s.mayMigrate && |Started(s, t, task).control| == |s.control|
  {
    match task
    case Noise => case ResumeWorker => case PostToOrigin => case Completion =>
  }

  /** The steps that use members of the channel object. */
  predicate Touches(a: Action) {
    match a
    case Caller(c) => !c.WaitYield? && !c.YieldElsewhere? && !c.ResumeElsewhere? && !c.Finish? && !c.DropUser?
    case OfWorker(w) => w.WorkerPark? || w.WorkerResume? || w.WorkerBuild?
    case OfTask(p) => p.PostBuild? || p.PostAdd? || p.CompFinish? || p.CompClosure? || p.CompCheck? || p.CompResume?
    case OfReactor(_) => false
  }

  /** None of them ever runs on a destroyed channel. */
  lemma NoUseAfterDestruction(s: State, a: Action)
    requires Inv(s) && Next(s, a).Some? && Touches(a)
    ensures !s.destroyed
  {
    hide QueueInv, WaitInv, ControlInv;
    match a
    case Caller(c) => CallerAlive(s, c);
    case OfWorker(w) => WorkerAlive(s, w);
    case OfTask(p) => TaskAlive(s, p);
    case OfReactor(_) =>
  }

  lemma CallerAlive(s: State, c: CallerAction)
    requires Inv(s) && CallerStep(s, c).Some? && Touches(Caller(c))
    ensures !s.destroyed
  {
    hide QueueInv, WaitInv, ControlInv;
  }

  lemma WorkerAlive(s: State, w: WorkerAction)
    requires Inv(s) && WorkerStep(s, w).Some? && Touches(OfWorker(w))
    ensures !s.destroyed
  {
    hide QueueInv, WaitInv, ControlInv;
  }

  lemma TaskAlive(s: State, p: TaskAction)
    requires Inv(s) && TaskStep(s, p).Some? && Touches(OfTask(p))
    ensures !s.destroyed
  {
    hide QueueInv, WaitInv, ControlInv;
  }

  /** Who can drop the last reference: whoever holds the user's pointer, the worker's reactor or the
      origin's reactor; never the worker coroutine itself. */
  lemma LastReference(s: State, a: Action)
    requires Inv(s) && Next(s, a).Some? && !s.destroyed && Next(s, a).value.destroyed
    ensures a == Caller(DropUser) || a == OfTask(PostEnd) || a == OfTask(CompDrop)
    ensures WorkerGone(Next(s, a).value)
  {
    hide CallerStep, WorkerStep, TaskStep, ReactorStep, ControlInv, QueueInv, StageInv, WaitInv, WorkerGone;
    NextKeeps(s, a);
    DestroyedGone(Next(s, a).value);
    match a
    case Caller(c) =>
      if !c.DropUser? {
        CallerNotLast(s, c);
      }
    case OfWorker(w) => WorkerNotLast(s, w);
    case OfTask(p) =>
      if !p.PostEnd? && !p.CompDrop? {
        TaskNotLast(s, p);
      }
    case OfReactor(r) => ReactorKeepsRefs(s, r);
  }

  lemma StartedKeepsRefs(s: State, t: nat, task: Task)
    requires t < |s.control|
    ensures Started(s, t, task).refs == s.refs
  {
    match task
    case Noise => case ResumeWorker => case PostToOrigin => case Completion =>
  }

  lemma ReactorKeepsRefs(s: State, r: ReactorAction)
    requires Shape(s) && ReactorStep(s, r).Some?
    ensures ReactorStep(s, r).value.refs == s.refs
  {
    hide Started;
    match r
    case Swap(_) =>
    case AddNoise(_) =>
    case RunTask(t) => StartedKeepsRefs(Popped(s, t), t, s.queues[t].batch[0]);
  }

  lemma CallerNotLast(s: State, c: CallerAction)
    requires Inv(s) && !s.destroyed && CallerStep(s, c).Some? && !c.DropUser?
    ensures CallerStep(s, c).value.refs != {}
  {
    hide QueueInv, WaitInv, ControlInv, Idle;
    if c.CallReturn? {
      assert User in CallerStep(s, c).value.refs;
    } else {
      assert s.refs <= CallerStep(s, c).value.refs;
    }
  }

  lemma WorkerNotLast(s: State, w: WorkerAction)
    requires Inv(s) && !s.destroyed && WorkerStep(s, w).Some?
    ensures WorkerStep(s, w).value.refs != {}
  {
    hide QueueInv, WaitInv, ControlInv, Idle;
    match w
    case WorkerReset => assert LocalPost in WorkerStep(s, w).value.refs;
    case WorkerReturn => assert PostTask in WorkerStep(s, w).value.refs;
    case _ => assert s.refs <= WorkerStep(s, w).value.refs;
  }

  lemma TaskNotLast(s: State, p: TaskAction)
    requires Inv(s) && !s.destroyed && TaskStep(s, p).Some? && !p.PostEnd? && !p.CompDrop?
    ensures TaskStep(s, p).value.refs != {}
  {
    hide QueueInv, WaitInv, ControlInv;
    if p.PostResetSelf? {
      assert LocalComp in TaskStep(s, p).value.refs;
    } else {
      assert s.refs <= TaskStep(s, p).value.refs;
    }
  }

  lemma DestroyedGone(s: State)
    requires Inv(s) && s.destroyed
    ensures WorkerGone(s)
  {
  }

  // ----- no lost wakeup -----

  /** What to do next when the reactor of `t` has a task of the call in its queue. */
  function Reactor(s: State, t: nat): Action
    requires t < |s.queues|
  {
    OfReactor(if s.queues[t].batch == [] then Swap(t) else RunTask(t))
  }

  function DoReactor(s: State, t: nat): Option<State>
    requires Shape(s) && t < |s.queues|
  {
    if s.queues[t].batch == [] then DoSwap(s, t) else DoRunTask(s, t)
  }

  /** The next step of the call itself on the way to its completion, and its effect. */
  function NextOf(s: State): (Action, Option<State>)
    requires Shape(s)
  {
    match s.worker
    case Queued => (Reactor(s, s.workerThread), DoReactor(s, s.workerThread))
    case Calling => (OfWorker(WorkerBuild), DoWorkerBuild(s))
    case ParkedInCall => (OfWorker(WorkerResume(s.workerThread)), DoWorkerResume(s, s.workerThread))
    case LambdaBuilt => (OfWorker(WorkerPost), DoWorkerPost(s))
    case Posted => (OfWorker(WorkerReset), DoWorkerReset(s))
    case SelfReset => (OfWorker(WorkerReturn), DoWorkerReturn(s))
    case Returned => (OfWorker(WorkerOut), DoWorkerOut(s))
    case OutOfCoFunc => (OfWorker(WorkerYield), DoWorkerYield(s))
    case _ =>
      match s.post
      case PostQueued => (Reactor(s, s.postThread), DoReactor(s, s.postThread))
      case PostRuns => (OfTask(PostBuild), DoPostBuild(s))
      case CompletionBuilt => (OfTask(PostAdd), DoPostAdd(s))
      case CompletionAdded => (OfTask(PostResetSelf), DoPostResetSelf(s))
      case PostReset => (OfTask(PostEnd), DoPostEnd(s))
      case _ =>
        (Reactor(s, s.t0), DoReactor(s, s.t0))
  }

  function WorkerRank(w: WorkerPc): nat {
    match w
    case NoWorker => 10 case Prepared => 9 case Queued => 8 case ParkedInCall => 7 case Calling => 6
    case LambdaBuilt => 5 case Posted => 4 case SelfReset => 3 case Returned => 2 case OutOfCoFunc => 1
    case Yielded => 0
  }

  function PostRank(p: PostPc): nat {
    match p
    case NotPosted => 6 case PostQueued => 5 case PostRuns => 4 case CompletionBuilt => 3 case CompletionAdded => 2
    case PostReset => 1 case PostDone => 0
  }

  function CompRank(c: CompPc): nat {
    match c
    case NoCompletion => 7 case CompQueued => 6 case CompRuns => 5 case FinishedSet => 4 case ClosureRun => 3
    case Resuming => 2 case _ => 0
  }

  /** Steps of the call that are left. */
  function Rank(s: State): nat {
    WorkerRank(s.worker) + PostRank(s.post) + CompRank(s.comp)
  }

  function IndexOf(q: seq<Task>, x: Task): (i: nat)
    ensures i <= |q|
  {
    if q == [] || q[0] == x then 0 else 1 + IndexOf(q[1..], x)
  }

  function Distance(q: Queue, x: Task): nat {
    2 * IndexOf(Tasks(q), x) + if q.batch == [] then 1 else 0
  }

  /** Reactor steps in front of the next step of the call. */
  function Ahead(s: State): nat
    requires Shape(s)
  {
    if s.worker.Queued? then Distance(s.queues[s.workerThread], ResumeWorker)
    else if s.post.PostQueued? then Distance(s.queues[s.postThread], PostToOrigin)
    else if s.comp.CompQueued? then Distance(s.queues[s.t0], Completion)
    else 0
  }

  lemma {:induction false} IndexAppend(q: seq<Task>, x: Task)
    requires x in q
    ensures IndexOf(q, x) < |q| && q[IndexOf(q, x)] == x
    decreases |q|
  {
    if q[0] != x {
      IndexAppend(q[1..], x);
    }
  }

  /** A reactor step in front of the awaited task brings it nearer, or runs it. */
  lemma ReactorCloser(q: Queue, x: Task)
    requires x in Tasks(q)
    ensures q.batch == [] ==> Distance(Queue(q.pending, []), x) < Distance(q, x)
    ensures q.batch != [] && q.batch[0] != x ==> Distance(q.(batch := q.batch[1..]), x) < Distance(q, x)
  {
    IndexAppend(Tasks(q), x);
    if q.batch == [] {
      assert Tasks(Queue(q.pending, [])) == Tasks(q);
    } else if q.batch[0] != x {
      assert Tasks(q)[1..] == Tasks(q.(batch := q.batch[1..]));
    }
  }

  /** Of the three tasks at most one is in a queue at a time. */
  lemma OneTask(s: State, t: nat, x: Task)
    requires Inv(s) && t < |s.queues| && x in Tasks(s.queues[t]) && !x.Noise?
    ensures match x
            case Noise => true
            case ResumeWorker => s.worker.Queued?
            case PostToOrigin => s.post.PostQueued?
            case Completion => s.comp.CompQueued?
    ensures s.queues[t].batch != [] ==> s.queues[t].batch[0] == x || s.queues[t].batch[0].Noise?
  {
    var m := multiset(Tasks(s.queues[t]));
    assert x in m;
    if s.queues[t].batch != [] {
      assert s.queues[t].batch[0] == Tasks(s.queues[t])[0];
      assert s.queues[t].batch[0] in m;
    }
  }

  predicate Parked(o: OriginPc) {
    o.ParkedInWait? || o.ParkedElsewhere? || o.Ended?
  }

  /** The caller is where it was. */
  predicate SameCaller(s: State, r: State) {
    && r.t0 == s.t0 && r.mayMigrate == s.mayMigrate && |r.control| == |s.control|
    && r.origin == s.origin && r.originThread == s.originThread && r.needResume == s.needResume
    && r.pendingCoroutine == s.pendingCoroutine && r.resumes == s.resumes && (User in r.refs <==> User in s.refs)
  }

  /** The step got nearer to the completion. */
  ghost predicate Closer(s: State, r: State)
    requires Shape(s)
  {
    Shape(r) && (Rank(r) < Rank(s) || (Rank(r) == Rank(s) && Ahead(r) < Ahead(s)))
  }

  /** The completion has still to start. */
  predicate Underway(s: State) {
    Parked(s.origin) && s.pendingCoroutine && (s.comp.NoCompletion? || s.comp.CompQueued?)
  }

  /** Which task the call waits for, and on which thread. */
  predicate Awaits(s: State, t: nat, x: Task) {
    match x
    case Noise => false
    case ResumeWorker => s.worker.Queued? && t == s.workerThread
    case PostToOrigin => !s.worker.Queued? && s.post.PostQueued? && t == s.postThread
    case Completion => !s.worker.Queued? && !s.post.PostQueued? && s.comp.CompQueued? && t == s.t0
  }

  lemma AheadIs(s: State, t: nat, x: Task)
    requires Shape(s) && Awaits(s, t, x)
    ensures t < |s.queues| && Ahead(s) == Distance(s.queues[t], x)
  {
  }

  lemma QueueCloser(s: State, t: nat, x: Task, q: Queue)
    requires Shape(s) && Awaits(s, t, x)
    requires t < |s.queues| && Distance(q, x) < Distance(s.queues[t], x)
    ensures Closer(s, s.(queues := s.queues[t := q]))
  {
    var r := s.(queues := s.queues[t := q]);
    AheadIs(s, t, x);
    AheadIs(r, t, x);
    hide Ahead, Distance, Awaits;
  }

  lemma StartCloser(s: State, p: State, t: nat, x: Task)
    requires Shape(s) && Shape(p) && Awaits(s, t, x) && t < |p.control|
    requires p.worker == s.worker && p.post == s.post && p.comp == s.comp
    ensures Closer(s, Started(p, t, x))
  {
    hide Ahead;
    match x
    case Noise => case ResumeWorker => case PostToOrigin => case Completion =>
  }

  lemma SwapCloser(s: State, t: nat, x: Task)
    requires Shape(s) && Idle(s, t) && Awaits(s, t, x) && x in Tasks(s.queues[t]) && s.queues[t].batch == []
    ensures DoSwap(s, t).Some? && Closer(s, DoSwap(s, t).value)
  {
    ReactorCloser(s.queues[t], x);
    hide Distance, Closer;
    QueueCloser(s, t, x, Queue(s.queues[t].pending, []));
  }

  lemma RunTaskCloser(s: State, t: nat, x: Task)
    requires Shape(s) && Idle(s, t) && Awaits(s, t, x) && x in Tasks(s.queues[t]) && s.queues[t].batch != []
    requires s.queues[t].batch[0] == x || s.queues[t].batch[0].Noise?
    ensures DoRunTask(s, t).Some? && Closer(s, DoRunTask(s, t).value)
  {
    var q := s.queues[t];
    ReactorCloser(q, x);
    hide Distance, Closer, Awaits;
    if q.batch[0] == x {
      hide Started;
      StartCloser(s, Popped(s, t), t, x);
    } else {
      QueueCloser(s, t, x, q.(batch := q.batch[1..]));
    }
  }

  /** One reactor step towards what waits in the queue of `t`. */
  lemma ReactorCloserStep(s: State, t: nat, x: Task)
    requires Inv(s) && Idle(s, t) && Awaits(s, t, x)
    ensures DoReactor(s, t).Some? && Closer(s, DoReactor(s, t).value)
  {
    assert x in Tasks(s.queues[t]) by {
      assert x in multiset(Tasks(s.queues[t]));
    }
    OneTask(s, t, x);
    hide ControlInv, RefInv, StageInv, WaitInv, QueueInv, Closer, DoSwap, DoRunTask, Awaits, Tasks;
    if s.queues[t].batch == [] {
      SwapCloser(s, t, x);
    } else {
      RunTaskCloser(s, t, x);
    }
  }

  lemma WorkerParkedCloser(s: State)
    requires Inv(s) && Underway(s) && s.worker.ParkedInCall?
    ensures NextOf(s).1.Some? && Closer(s, NextOf(s).1.value)
  {
    hide RefInv, QueueInv, WaitInv, Distance, Ahead;
  }

  lemma WorkerPostCloser(s: State)
    requires Inv(s) && Underway(s) && s.worker.LambdaBuilt?
    ensures NextOf(s).1.Some? && Closer(s, NextOf(s).1.value)
  {
    hide RefInv, QueueInv, WaitInv, Distance, Ahead;
  }

  lemma WorkerCloser(s: State)
    requires Inv(s) && Underway(s) && (s.worker.Calling? || s.worker.Posted?)
    ensures NextOf(s).1.Some? && Closer(s, NextOf(s).1.value)
  {
    assert s.control[s.workerThread].Worker?;
    hide ControlInv, RefInv, QueueInv, WaitInv, StageInv, Distance, Ahead, DoReactor, DoWorkerResume, DoWorkerPost,
      DoWorkerReturn, DoWorkerOut, DoWorkerYield, DoPostBuild, DoPostAdd, DoPostResetSelf, DoPostEnd, Underway;
  }

  lemma WorkerEndCloser(s: State)
    requires Inv(s) && Underway(s) && (s.worker.SelfReset? || s.worker.Returned? || s.worker.OutOfCoFunc?)
    ensures NextOf(s).1.Some? && Closer(s, NextOf(s).1.value)
  {
    assert s.control[s.workerThread].Worker?;
    hide ControlInv, RefInv, QueueInv, WaitInv, StageInv, Distance, Ahead, DoReactor, DoWorkerResume, DoWorkerPost,
      DoWorkerBuild, DoWorkerReset, DoPostBuild, DoPostAdd, DoPostResetSelf, DoPostEnd, Underway;
  }

  lemma PostAddCloser(s: State)
    requires Inv(s) && Underway(s) && s.worker.Yielded? && s.post.CompletionBuilt?
    ensures NextOf(s).1.Some? && Closer(s, NextOf(s).1.value)
  {
    assert s.control[s.postThread].Main?;
    hide ControlInv, RefInv, QueueInv, WaitInv, Distance, Ahead, DoReactor, DoPostBuild, DoPostResetSelf, DoPostEnd;
  }

  lemma PostCloser(s: State)
    requires Inv(s) && Underway(s) && s.worker.Yielded? && PostBusy(s.post) && !s.post.CompletionBuilt?
    ensures NextOf(s).1.Some? && Closer(s, NextOf(s).1.value)
  {
    assert s.control[s.postThread].Main?;
    hide ControlInv, RefInv, QueueInv, WaitInv, StageInv, Distance, Ahead, DoReactor, DoPostAdd;
  }

  lemma NextOfCloser(s: State)
    requires Inv(s) && Underway(s)
    ensures NextOf(s).1.Some? && Closer(s, NextOf(s).1.value)
  {
    if s.worker.ParkedInCall? {
      WorkerParkedCloser(s);
    } else if s.worker.LambdaBuilt? {
      WorkerPostCloser(s);
    } else if s.worker.Calling? || s.worker.Posted? {
      WorkerCloser(s);
    } else if WorkerActive(s.worker) {
      WorkerEndCloser(s);
    } else if s.worker.Queued? {
      ReactorCloserStep(s, s.workerThread, ResumeWorker);
    } else if s.post.PostQueued? {
      ReactorCloserStep(s, s.postThread, PostToOrigin);
    } else if s.post.CompletionBuilt? {
      PostAddCloser(s);
    } else if PostBusy(s.post) {
      PostCloser(s);
    } else {
      ReactorCloserStep(s, s.t0, Completion);
    }
    hide NextOf, Closer, DoReactor;
  }

  lemma NextOfIsNext(s: State)
    requires Shape(s) && NextOf(s).1.Some?
    ensures RawStep(s, NextOf(s).0) == NextOf(s).1 && Next(s, NextOf(s).0) == Some(Settle(NextOf(s).1.value))
  {
    hide Settle, DoWorkerPark, DoWorkerResume, DoWorkerBuild, DoWorkerPost, DoWorkerReset,
      DoWorkerReturn, DoWorkerOut, DoWorkerYield, DoPostBuild, DoPostAdd, DoPostResetSelf, DoPostEnd,
      DoCompFinish, DoCompClosure, DoCompCheck, DoCompResume, DoCompBack, DoCompDrop, DoSwap, DoRunTask,
      DoAddNoise;
  }

  /** What the step leaves: the caller where it is, and the completion not started unless it is its turn. */
  ghost predicate Onward(s: State, r: State) {
    SameCaller(s, r)
    && (r.comp == s.comp || r.comp.CompQueued? || (r.comp.CompRuns? && r.post.PostDone? && r.worker.Yielded?))
  }

  lemma WorkerOnward(s: State, w: WorkerAction)
    requires Shape(s) && WorkerStep(s, w).Some?
    ensures Onward(s, WorkerStep(s, w).value)
  {
    match w
    case WorkerPark => case WorkerResume(_) => case WorkerBuild => case WorkerPost =>
    case WorkerReset => case WorkerReturn => case WorkerOut => case WorkerYield =>
  }

  lemma PostOnward(s: State, p: TaskAction)
    requires Shape(s) && TaskStep(s, p).Some? && (p.PostBuild? || p.PostAdd? || p.PostResetSelf? || p.PostEnd?)
    ensures Onward(s, TaskStep(s, p).value)
  {
    hide DoCompFinish, DoCompClosure, DoCompCheck, DoCompResume, DoCompBack, DoCompDrop;
  }

  lemma StartedOnward(s: State, t: nat, task: Task)
    requires t < |s.control| && (task.Completion? ==> s.post.PostDone? && s.worker.Yielded?)
    ensures Onward(s, Started(s, t, task))
  {
    match task
    case Noise => case ResumeWorker => case PostToOrigin => case Completion =>
  }

  lemma CompletionDue(s: State, t: nat)
    requires Core(s) && t < |s.queues| && s.queues[t].batch != [] && s.queues[t].batch[0].Completion?
    requires s.worker.Queued? || s.post.PostQueued? || (s.worker.Yielded? && s.post.PostDone?)
    ensures s.post.PostDone? && s.worker.Yielded?
  {
    HeadKnown(s, t);
    hide ControlInv, QueueInv, RefInv;
  }

  lemma PoppedOnward(s: State, t: nat, r: State)
    requires t < |s.queues| && s.queues[t].batch != [] && Onward(Popped(s, t), r)
    ensures Onward(s, r)
  {
  }

  lemma RunTaskOnward(s: State, t: nat)
    requires Core(s) && DoRunTask(s, t).Some?
    requires s.worker.Queued? || s.post.PostQueued? || (s.worker.Yielded? && s.post.PostDone?)
    ensures Onward(s, DoRunTask(s, t).value)
  {
    hide ControlInv, QueueInv, RefInv, StageInv, Started, Onward;
    var x := s.queues[t].batch[0];
    if x.Completion? {
      CompletionDue(s, t);
    }
    StartedOnward(Popped(s, t), t, x);
    PoppedOnward(s, t, Started(Popped(s, t), t, x));
  }

  lemma SwapOnward(s: State, t: nat)
    requires Shape(s) && DoSwap(s, t).Some?
    ensures Onward(s, DoSwap(s, t).value)
  {
  }

  /** A step of the call alone. */
  lemma NextOfOnward(s: State)
    requires Core(s) && Underway(s) && NextOf(s).1.Some?
    ensures Onward(s, NextOf(s).1.value)
  {
    NextOfIsNext(s);
    NextOfKind(s);
    hide ControlInv, QueueInv, RefInv, StageInv, Underway, NextOf, Onward, Settle, WorkerStep, TaskStep, DoRunTask,
      DoSwap;
    match NextOf(s).0
    case OfWorker(w) => WorkerOnward(s, w);
    case OfTask(p) => PostOnward(s, p);
    case OfReactor(Swap(t)) => SwapOnward(s, t);
    case OfReactor(RunTask(t)) => RunTaskOnward(s, t);
    case _ =>
  }

  lemma NextOfKind(s: State)
    requires Core(s) && Underway(s)
    ensures match NextOf(s).0
            case OfWorker(_) => true
            case OfTask(p) => p.PostBuild? || p.PostAdd? || p.PostResetSelf? || p.PostEnd?
            case OfReactor(r) => !r.AddNoise? && (s.worker.Queued? || s.post.PostQueued?
                                                  || (s.worker.Yielded? && s.post.PostDone?))
            case Caller(_) => false
  {
    hide ControlInv, QueueInv, RefInv, DoReactor, DoWorkerResume, DoWorkerBuild, DoWorkerPost, DoWorkerReset,
      DoWorkerReturn, DoWorkerOut, DoWorkerYield, DoPostBuild, DoPostAdd, DoPostResetSelf, DoPostEnd;
  }

  lemma SettledCloser(s: State, m: State)
    requires Shape(s) && Closer(s, m)
    ensures Closer(s, Settle(m))
  {
  }

  /** Steps of the worker, of the two tasks and of the reactors; none of the caller and no new foreign task. */
  predicate OwnSteps(run: seq<Action>) {
    forall a :: a in run ==> !a.Caller? && !(a.OfReactor? && a.r.AddNoise?)
  }

  lemma OwnFirst(a: Action, rest: seq<Action>)
    requires OwnSteps([a]) && OwnSteps(rest)
    ensures OwnSteps([a] + rest)
  {
  }

  lemma OwnBoth(run: seq<Action>, more: seq<Action>)
    requires OwnSteps(run) && OwnSteps(more)
    ensures OwnSteps(run + more)
  {
  }

  /** While the caller is parked, steps of the call alone lead to the start of its completion,
      through whatever else the queues hold. */
  lemma Arrives(s: State) returns (run: seq<Action>, r: State)
    requires Inv(s) && Underway(s)
    ensures Reaches(s, run, r) && Inv(r) && SameCaller(s, r)
    ensures r.comp.CompRuns? && r.post.PostDone? && r.worker.Yielded? && OwnSteps(run)
    decreases Rank(s), Ahead(s)
  {
    hide Settle, NextOf, Next, ControlInv, QueueInv, RefInv, StageInv, WaitInv;
    NextOfCloser(s);
    NextOfOnward(s);
    NextOfIsNext(s);
    NextOfKind(s);
    var a, m := NextOf(s).0, NextOf(s).1.value;
    assert OwnSteps([a]);
    NextKeeps(s, a);
    SettledCloser(s, m);
    SettledOnward(s, m);
    var u := Settle(m);
    hide Rank, Ahead;
    if Underway(u) {
      var rest;
      rest, r := Arrives(u);
      run := [a] + rest;
      OwnFirst(a, rest);
      assert run[1..] == rest;
    } else {
      run, r := [a], u;
      assert run[1..] == [];
      assert Reaches(u, [], u);
    }
  }

  lemma SettledOnward(s: State, m: State)
    requires Underway(s) && Onward(s, m)
    ensures SameCaller(s, Settle(m))
    ensures Underway(Settle(m)) || (Settle(m).comp.CompRuns? && Settle(m).post.PostDone? && Settle(m).worker.Yielded?)
  {
  }

  lemma {:induction false} Append(s: State, run: seq<Action>, m: State, more: seq<Action>, r: State)
    requires Reaches(s, run, m) && Reaches(m, more, r)
    ensures Reaches(s, run + more, r)
    decreases |run|
  {
    hide Next;
    if run == [] {
      assert run + more == more;
    } else {
      Append(Next(s, run[0]).value, run[1..], m, more, r);
      assert (run + more)[1..] == run[1..] + more;
    }
  }

  lemma Extend(s0: State, run: seq<Action>, s: State, a: Action) returns (longer: seq<Action>, r: State)
    requires Reaches(s0, run, s) && Shape(s) && Next(s, a).Some?
    ensures Reaches(s0, longer, r) && r == Next(s, a).value
  {
    hide Next;
    r := Next(s, a).value;
    assert [a][1..] == [];
    assert Reaches(r, [], r) && Reaches(s, [a], r);
    Append(s0, run, s, [a], r);
    longer := run + [a];
  }

  /** The completion up to the resumption, with the caller parked in `wait`. */
  lemma Completes(s: State) returns (run: seq<Action>, r: State)
    requires Inv(s) && Stays(s) && s.origin.ParkedInWait? && CompBusy(s.comp)
    ensures Reaches(s, run, r) && OwnSteps(run) && r.origin.Free? && r.finished && r.resumes == s.resumes + 1
    ensures r.pendingCoroutine == s.pendingCoroutine
    decreases CompRank(s.comp)
  {
    var a := match s.comp
             case CompRuns => OfTask(CompFinish)
             case FinishedSet => OfTask(CompClosure)
             case ClosureRun => OfTask(CompCheck)
             case _ => OfTask(CompResume);
    CompStep(s, a);
    NextKeeps(s, a);
    var u := Next(s, a).value;
    hide Next, ControlInv, QueueInv, RefInv, StageInv, WaitInv;
    if s.comp.Resuming? {
      run, r := [a], u;
      assert run[1..] == [];
      assert Reaches(u, [], u);
    } else {
      var rest;
      rest, r := Completes(u);
      run := [a] + rest;
      assert run[1..] == rest;
    }
  }

  lemma CompStep(s: State, a: Action)
    requires Inv(s) && Stays(s) && s.origin.ParkedInWait? && CompBusy(s.comp)
    requires a == match s.comp
                  case CompRuns => OfTask(CompFinish)
                  case FinishedSet => OfTask(CompClosure)
                  case ClosureRun => OfTask(CompCheck)
                  case _ => OfTask(CompResume)
    ensures Next(s, a).Some? && Stays(Next(s, a).value)
    ensures var r := Next(s, a).value;
            if s.comp.Resuming? then r.origin.Free? && r.finished && r.resumes == s.resumes + 1
            else && r.origin.ParkedInWait? && CompBusy(r.comp) && CompRank(r.comp) < CompRank(s.comp)
                 && r.resumes == s.resumes
    ensures Next(s, a).value.pendingCoroutine == s.pendingCoroutine
  {
    assert s.control[s.t0].Main? && s.needResume && (s.comp.Resuming? ==> s.finished);
    assert !s.comp.Suspended? && !s.comp.BeforeReset?;
    hide ControlInv, WaitInv, QueueInv, RefInv, StageInv;
    match s.comp
    case CompRuns => case FinishedSet => case ClosureRun => case Resuming =>
    case NoCompletion => case CompQueued => case Suspended => case BeforeReset => case CompDone =>
  }

  /** No lost wakeup: from every reachable state in which a caller that stays is parked in `wait` there
      is a run, of steps of the call alone, at the end of which it has been resumed, the call finished. */
  lemma Wakes(s: State) returns (run: seq<Action>, r: State)
    requires Inv(s) && Stays(s) && s.origin.ParkedInWait?
    ensures Reaches(s, run, r) && OwnSteps(run) && r.origin.Free? && r.finished && r.resumes == s.resumes + 1
    ensures r.pendingCoroutine == s.pendingCoroutine
  {
    WaitsUnderway(s);
    hide *;
    if Underway(s) {
      var first, m := Arrives(s);
      SameStays(s, m);
      var rest;
      rest, r := Completes(m);
      run := first + rest;
      OwnBoth(first, rest);
      Append(s, first, m, rest, r);
    } else {
      run, r := Completes(s);
    }
  }

  lemma WaitsUnderway(s: State)
    requires Inv(s) && Stays(s) && s.origin.ParkedInWait?
    ensures Underway(s) || CompBusy(s.comp)
  {
    hide ControlInv, QueueInv, RefInv;
  }

  lemma SameStays(s: State, m: State)
    requires SameCaller(s, m) && Stays(s) && s.origin.ParkedInWait? && m.comp.CompRuns?
    ensures Stays(m) && m.origin.ParkedInWait? && CompBusy(m.comp) && m.resumes == s.resumes
    ensures m.pendingCoroutine == s.pendingCoroutine
  {
  }

  // ----- no leak -----

  /** Steps of the call that are left once its completion has started. */
  function EndRank(s: State): nat {
    PostRank(s.post) +
    match s.comp
    case CompRuns => 6 case FinishedSet => 5 case ClosureRun => 4 case Resuming => 3 case Suspended => 2
    case BeforeReset => 1 case _ => 0
  }

  /** The caller and the user are done, and the completion has started. */
  predicate Ending(s: State) {
    s.origin.Ended? && User !in s.refs && (CompBusy(s.comp) || s.comp.CompDone?)
  }

  /** What is left to do then. */
  function EndAction(s: State): Action {
    OfTask(match s.post
           case CompletionAdded => PostResetSelf
           case PostReset => PostEnd
           case _ =>
             match s.comp
             case CompRuns => CompFinish
             case FinishedSet => CompClosure
             case ClosureRun => CompCheck
             case Resuming => CompResume
             case Suspended => CompBack
             case _ => CompDrop)
  }

  lemma EndingFacts(s: State)
    requires Core(s) && Ending(s)
    ensures s.worker.Yielded? && (s.post.CompletionAdded? || s.post.PostReset? || s.post.PostDone?)
    ensures s.control[s.t0].Main? && (PostBusy(s.post) ==> s.control[s.postThread].Main?)
    ensures s.post.PostDone? && s.comp.CompDone? ==> s.destroyed
  {
    hide QueueInv;
    if s.post.PostDone? && s.comp.CompDone? {
      NoHolders(s.refs);
    }
  }

  lemma NoHolders(refs: set<Holder>)
    requires User !in refs && CallFrame !in refs && Callback !in refs && LocalPost !in refs
    requires PostTask !in refs && LocalComp !in refs && CompTask !in refs
    ensures refs == {}
  {
    forall h: Holder
      ensures h !in refs
    {
      match h
      case User => case CallFrame => case Callback => case LocalPost => case PostTask =>
      case LocalComp => case CompTask =>
    }
  }

  lemma EndPost(s: State)
    requires Shape(s) && Ending(s) && s.control[s.postThread].Main? && (s.post.CompletionAdded? || s.post.PostReset?)
    ensures Next(s, EndAction(s)).Some?
    ensures var r := Next(s, EndAction(s)).value; Ending(r) && EndRank(r) < EndRank(s)
  {
    match s.post
    case CompletionAdded => case PostReset => case _ =>
  }

  lemma EndFinish(s: State)
    requires Shape(s) && Ending(s) && s.control[s.t0].Main? && s.post.PostDone?
    requires s.comp.CompRuns? || s.comp.FinishedSet? || s.comp.ClosureRun?
    ensures Next(s, EndAction(s)).Some?
    ensures var r := Next(s, EndAction(s)).value; Ending(r) && EndRank(r) < EndRank(s)
  {
    hide CallerStep, WorkerStep, ReactorStep, DoPostBuild, DoPostAdd, DoPostResetSelf, DoPostEnd;
    hide DoCompResume, DoCompBack, DoCompDrop;
  }

  lemma EndResume(s: State)
    requires Shape(s) && Ending(s) && s.control[s.t0].Main? && s.post.PostDone?
    requires s.comp.Resuming?
    ensures Next(s, EndAction(s)).Some?
    ensures var r := Next(s, EndAction(s)).value; Ending(r) && EndRank(r) < EndRank(s)
  {
    hide CallerStep, WorkerStep, ReactorStep, DoPostBuild, DoPostAdd, DoPostResetSelf, DoPostEnd;
    hide DoCompFinish, DoCompClosure, DoCompCheck, DoCompBack, DoCompDrop;
  }

  lemma EndDrop(s: State)
    requires Shape(s) && Ending(s) && s.control[s.t0].Main? && s.post.PostDone?
    requires s.comp.Suspended? || s.comp.BeforeReset?
    ensures Next(s, EndAction(s)).Some?
    ensures var r := Next(s, EndAction(s)).value; Ending(r) && EndRank(r) < EndRank(s)
  {
    hide CallerStep, WorkerStep, ReactorStep, DoPostBuild, DoPostAdd, DoPostResetSelf, DoPostEnd;
    hide DoCompFinish, DoCompClosure, DoCompCheck, DoCompResume;
  }

  lemma {:induction false} EndsDestroyed(s: State) returns (run: seq<Action>, r: State)
    requires Inv(s) && Ending(s)
    ensures Reaches(s, run, r) && OwnSteps(run) && r.destroyed && Ending(r) && r.comp.CompDone?
    decreases EndRank(s)
  {
    EndingFacts(s);
    hide Next, Ending, EndRank, EndAction, ControlInv, QueueInv, RefInv, StageInv, WaitInv;
    if s.post.PostDone? && s.comp.CompDone? {
      run, r := [], s;
    } else {
      EndStep(s);
      var a := EndAction(s);
      NextKeeps(s, a);
      var rest;
      rest, r := EndsDestroyed(Next(s, a).value);
      run := [a] + rest;
      assert run[1..] == rest;
    }
  }

  lemma EndStep(s: State)
    requires Core(s) && Ending(s) && !(s.post.PostDone? && s.comp.CompDone?)
    ensures Next(s, EndAction(s)).Some?
    ensures var r := Next(s, EndAction(s)).value; Ending(r) && EndRank(r) < EndRank(s)
  {
    EndingFacts(s);
    assert CompBusy(s.comp) || s.comp.CompDone?;
    hide Next, EndRank, EndAction, ControlInv, QueueInv, RefInv, StageInv;
    if !s.post.PostDone? {
      EndPost(s);
    } else if s.comp.CompRuns? || s.comp.FinishedSet? || s.comp.ClosureRun? {
      EndFinish(s);
    } else if s.comp.Resuming? {
      EndResume(s);
    } else {
      EndDrop(s);
    }
  }

  /** No leak: once the caller has ended and the user's pointer is gone, steps of the call alone lead to
      the destruction of the channel, wherever the caller has run. */
  lemma NoLeak(s: State) returns (run: seq<Action>, r: State)
    requires Inv(s) && s.origin.Ended? && User !in s.refs
    ensures Reaches(s, run, r) && OwnSteps(run) && r.destroyed && r.origin.Ended?
    ensures s.pendingCoroutine ==> r.comp.CompDone?
  {
    if !s.pendingCoroutine {
      FailedIsDestroyed(s);
      run, r := [], s;
    } else if Underway(s) {
      var first, m := Arrives(s);
      assert Ending(m);
      var rest;
      rest, r := EndsDestroyed(m);
      run := first + rest;
      OwnBoth(first, rest);
      Append(s, first, m, rest, r);
    } else {
      run, r := EndsDestroyed(s);
    }
  }

  lemma FailedIsDestroyed(s: State)
    requires Core(s) && s.origin.Ended? && User !in s.refs && !s.pendingCoroutine
    ensures s.destroyed
  {
    hide ControlInv, QueueInv;
    NoHolders(s.refs);
  }

  // ----- why the caller must stay on its thread -----

  /** The call has been made, and the caller parked elsewhere without having waited. */
  ghost predicate CalledAndLeft(s0: State, s: State) {
    && s.origin.ParkedElsewhere? && s.t0 == s0.t0 && s.mayMigrate == s0.mayMigrate && |s.control| == |s0.control|
    && s.pendingCoroutine && s.comp.NoCompletion? && User in s.refs
  }

  ghost predicate Submitting(s0: State, s: State) {
    && Shape(s) && s.origin.Submitted? && s.control[s.originThread].Origin?
    && s.t0 == s0.t0 && s.mayMigrate == s0.mayMigrate && |s.control| == |s0.control|
    && s.comp.NoCompletion? && User in s.refs && !s.finished && !s.failed
  }

  lemma CallerSubmits(s0: State) returns (run: seq<Action>, s: State)
    requires Init(s0)
    ensures Reaches(s0, run, s) && Submitting(s0, s)
  {
    hide Reaches, WorkerStep, TaskStep, ReactorStep;
    assert Reaches(s0, [], s0) by { ReachesItself(s0); }
    run, s := Extend(s0, [], s0, Caller(CallStart));
    run, s := Extend(s0, run, s, Caller(CallSetCallback));
    run, s := Extend(s0, run, s, Caller(CallSubmit(0)));
  }

  lemma ReachesItself(s: State)
    ensures Reaches(s, [], s)
  {
  }

  lemma CallerLeaves(s0: State, run0: seq<Action>, w: State) returns (run: seq<Action>, s: State)
    requires Reaches(s0, run0, w) && Submitting(s0, w)
    ensures Reaches(s0, run, s) && CalledAndLeft(s0, s)
  {
    hide Reaches, WorkerStep, TaskStep, ReactorStep;
    run, s := Extend(s0, run0, w, Caller(CallAssign));
    run, s := Extend(s0, run, s, Caller(CallReturn));
    run, s := Extend(s0, run, s, Caller(YieldElsewhere));
  }

  /** The caller, resumed on another thread, enters `wait` while the completion runs. */
  ghost predicate Races(s: State) {
    && Shape(s) && s.control[s.t0].Main? && s.origin.WaitEntered? && s.needResume && s.comp.CompRuns?
  }

  lemma WaitRaces(s0: State, run0: seq<Action>, w: State, u: nat) returns (run: seq<Action>, s: State)
    requires Reaches(s0, run0, w) && Inv(w) && w.mayMigrate && w.origin.ParkedElsewhere? && User in w.refs
    requires w.comp.CompRuns? && w.post.PostDone? && w.worker.Yielded? && u < |w.control| && u != w.t0
    ensures Reaches(s0, run, s) && Races(s)
  {
    assert Idle(w, u) && w.control[w.t0].Main? && Shape(w);
    hide Reaches, WorkerStep, TaskStep, ReactorStep, ControlInv, QueueInv, RefInv, StageInv, WaitInv;
    run, s := Extend(s0, run0, w, Caller(ResumeElsewhere(u)));
    run, s := Extend(s0, run, s, Caller(WaitEnter));
  }

  lemma RaceBreaks(s0: State, run0: seq<Action>, w: State) returns (run: seq<Action>, s: State)
    requires Reaches(s0, run0, w) && Races(w)
    ensures Reaches(s0, run, s) && s.broken
  {
    hide Reaches, CallerStep, WorkerStep, ReactorStep;
    run, s := Extend(s0, run0, w, OfTask(CompFinish));
    run, s := Extend(s0, run, s, OfTask(CompClosure));
    run, s := Extend(s0, run, s, OfTask(CompCheck));
    run, s := Extend(s0, run, s, OfTask(CompResume));
  }

  /** If the caller may be moved while parked elsewhere and there is another thread, then from every
      initial state some run resumes a coroutine that is not parked in `wait`. */
  lemma MigrationBreaks(s0: State) returns (run: seq<Action>, s: State)
    requires Init(s0) && !Stays(s0)
    ensures Reaches(s0, run, s) && s.broken
  {
    InitInv(s0);
    var u := if s0.t0 == 0 then 1 else 0;
    assert Shape(s0);
    var a, b, c: State;
    run, a := CallerSubmits(s0);
    run, a := CallerLeaves(s0, run, a);
    RunKeeps(s0, run, a);
    hide Reaches, Inv, Init;
    var more;
    more, b := Arrives(a);
    Append(s0, run, a, more, b);
    run := run + more;
    run, c := WaitRaces(s0, run, b, u);
    run, s := RaceBreaks(s0, run, c);
  }

  /** The handshake of `wait` is safe exactly for a caller that stays. */
  lemma StayingIsNecessary(s0: State)
    requires Init(s0)
    ensures Stays(s0) <==> forall run, s :: Reaches(s0, run, s) ==> !s.broken
  {
    if Stays(s0) {
      forall run, s | Reaches(s0, run, s)
        ensures !s.broken
      {
        CompletionOnce(s0, run, s);
      }
    } else {
      var run, s := MigrationBreaks(s0);
      assert Reaches(s0, run, s);
    }
  }

  // ----- a call from its start to its end -----

  /** The call has been made and has returned. */
  ghost predicate MadeCall(s0: State, s: State) {
    && Shape(s) && s.origin.Free? && s.control[s.originThread].Origin? && User in s.refs
    && s.mayMigrate == s0.mayMigrate && |s.control| == |s0.control| && s.pendingCoroutine && !s.finished
  }

  lemma CallReturns(s0: State, run0: seq<Action>, w: State) returns (run: seq<Action>, s: State)
    requires Reaches(s0, run0, w) && Submitting(s0, w)
    ensures Reaches(s0, run, s) && MadeCall(s0, s)
  {
    hide Reaches, WorkerStep, TaskStep, ReactorStep;
    run, s := Extend(s0, run0, w, Caller(CallAssign));
    run, s := Extend(s0, run, s, Caller(CallReturn));
  }

  /** From every initial state the caller can make the call, wait and park. */
  lemma CallParks(s0: State) returns (run: seq<Action>, s: State)
    requires Init(s0)
    ensures Reaches(s0, run, s) && s.origin.ParkedInWait? && s.mayMigrate == s0.mayMigrate
    ensures |s.control| == |s0.control| && s.pendingCoroutine && !s.finished
  {
    hide Init, Reaches, WorkerStep, TaskStep, ReactorStep, Submitting;
    run, s := CallerSubmits(s0);
    run, s := CallReturns(s0, run, s);
    run, s := Extend(s0, run, s, Caller(WaitEnter));
    run, s := Extend(s0, run, s, Caller(WaitCheck));
    run, s := Extend(s0, run, s, Caller(WaitYield));
  }

  /** The caller goes on to its end, and the user's pointer with it. */
  lemma CallerEnds(s0: State, run0: seq<Action>, w: State) returns (run: seq<Action>, s: State)
    requires Reaches(s0, run0, w) && Inv(w) && w.origin.Free?
    ensures Reaches(s0, run, s) && s.origin.Ended? && User !in s.refs
    ensures s.pendingCoroutine == w.pendingCoroutine && s.failed == w.failed && s.finished == w.finished
  {
    assert w.control[w.originThread].Origin?;
    hide Inv, ControlInv, QueueInv, RefInv, StageInv, WaitInv, Reaches, WorkerStep, TaskStep, ReactorStep;
    run, s := Extend(s0, run0, w, Caller(Finish));
    if User in s.refs {
      run, s := Extend(s0, run, s, Caller(DropUser));
    }
  }

  /** A refused call is finished at once, has no worker, and its channel goes with the user's pointer. */
  lemma RefusedCall(s0: State) returns (run: seq<Action>, s: State)
    requires Init(s0)
    ensures Reaches(s0, run, s) && s.failed && s.finished && s.worker.NoWorker? && s.destroyed
  {
    InitInv(s0);
    ReachesItself(s0);
    run, s := Extend(s0, [], s0, Caller(CallFail));
    assert s.failed && s.finished && s.origin.Free?;
    hide Init, Reaches, Next, ControlInv, QueueInv, RefInv, StageInv;
    RunKeeps(s0, run, s);
    run, s := CallerEnds(s0, run, s);
    RunKeeps(s0, run, s);
    RefusedFacts(s);
    FailedIsDestroyed(s);
  }

  lemma RefusedFacts(s: State)
    requires Inv(s) && s.failed
    ensures s.worker.NoWorker? && !s.pendingCoroutine
  {
    hide ControlInv, QueueInv, RefInv;
  }

  /** The whole call: from every initial state some run makes the call, parks the caller in `wait`, resumes
      it, ends it and destroys the channel, the completion through and the closure run. */
  lemma WholeCall(s0: State) returns (first: seq<Action>, parked: State, rest: seq<Action>, s: State)
    requires Init(s0) && Stays(s0)
    ensures Reaches(s0, first, parked) && parked.origin.ParkedInWait? && Reaches(parked, rest, s)
    ensures s.origin.Ended? && s.destroyed && s.comp.CompDone? && s.finished && (s.hasClosure ==> s.closureRuns == 1)
  {
    InitInv(s0);
    first, parked := CallParks(s0);
    assert Stays(parked);
    hide *;
    RunKeeps(s0, first, parked);
    var woken, r := Wakes(parked);
    RunKeeps(parked, woken, r);
    var ended, m := CallerEnds(parked, woken, r);
    RunKeeps(parked, ended, m);
    var last;
    last, s := NoLeak(m);
    Append(parked, ended, m, last, s);
    rest := ended + last;
    Append(s0, first, parked, rest, s);
    CompletionOnce(s0, first + rest, s);
  }
}
