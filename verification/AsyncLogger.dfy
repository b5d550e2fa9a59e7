/** The producer/consumer queue of `AsyncLogger` as a transition system: any number of
    producers and flushers, one writer thread, and `stop`. A step is what one thread does
    under the mutex, or one message the writer writes outside it. */
module AsyncLogger {
  import opened Bytes

  type Batch = seq<Bytes>

  /** Where the writer thread is: at the wait predicate, asleep in the wait, between taking
      a batch and having written `done` of its messages, behind the loop, or finished. */
  datatype Writer = Checking | Asleep | Writing(batch: Batch, done: nat) | Leaving | Gone

  /** `signals` counts notifications on `m_condition` that are still to be sent; `ready` and
      `sleeping` are the threads in `flush` about to test their condition, or asleep on it. */
  datatype State = State(
    tasks: seq<Batch>, writing: bool, stopping: bool, writer: Writer,
    signals: nat, ready: set<nat>, sleeping: set<nat>, written: seq<Bytes>)

  datatype Step =
    | Push(batch: Batch)          // the locked part of push; an empty batch never gets there
    | Stop                        // the locked part of stop
    | Notify                      // the notification behind either
    | Check                       // the writer tests its condition and takes a batch
    | Write                       // the writer disposes of one message
    | Finish                      // the writer reports the batch done
    | Leave                       // the writer's last critical section
    | Flush(thread: nat)          // a thread enters flush
    | Test(thread: nat)           // it tests its condition: returns or goes to sleep
    | Wake(thread: nat)           // a spurious wakeup of a flusher
    | WakeWriter                  // a spurious wakeup of the writer

  function Start(): State {
    State([], false, false, Checking, 0, {}, {}, [])
  }

  predicate Enabled(st: State, step: Step) {
    match step
    case Push(b) => b != []
    case Stop => true
    case Notify => st.signals > 0
    case Check => st.writer.Checking?
    case Write => st.writer.Writing? && st.writer.done < |st.writer.batch|
    case Finish => st.writer.Writing? && st.writer.done == |st.writer.batch|
    case Leave => st.writer.Leaving?
    case Flush(f) => f !in st.ready && f !in st.sleeping
    case Test(f) => f in st.ready
    case Wake(f) => f in st.sleeping
    case WakeWriter => st.writer.Asleep?
  }

  /** The condition of `flush`. */
  predicate Drained(st: State) {
    st.tasks == [] && !st.writing
  }

  function NotifyAll(st: State): State {
    st.(ready := st.ready + st.sleeping, sleeping := {})
  }

  function Next(st: State, step: Step): State
    requires Enabled(st, step)
  {
    match step
    case Push(b) => if st.stopping then st else st.(tasks := st.tasks + [b], signals := st.signals + 1)
    case Stop => st.(stopping := true, signals := st.signals + 1)
    case Notify => st.(signals := st.signals - 1, writer := if st.writer.Asleep? then Checking else st.writer)
    case Check =>
      if st.tasks != [] then st.(writer := Writing(st.tasks[0], 0), tasks := st.tasks[1..], writing := true)
      else st.(writer := if st.stopping then Leaving else Asleep)
    case Write =>
      var m := st.writer.batch[st.writer.done];
      st.(writer := Writing(st.writer.batch, st.writer.done + 1),
          written := if m == [] then st.written else st.written + [m])
    case Finish =>
      var r := st.(writing := false, writer := Checking);
      if st.tasks == [] then NotifyAll(r) else r
    case Leave => NotifyAll(st.(writing := false, writer := Gone))
    case Flush(f) => st.(ready := st.ready + {f})
    case Test(f) =>
      st.(ready := st.ready - {f}, sleeping := if Drained(st) then st.sleeping else st.sleeping + {f})
    case Wake(f) => st.(ready := st.ready + {f}, sleeping := st.sleeping - {f})
    case WakeWriter => st.(writer := Checking)
  }

  // ----- runs -----

  predicate Runs(run: seq<Step>)
    decreases |run|, 0
  {
    run == [] || (Runs(run[..|run| - 1]) && Enabled(After(run[..|run| - 1]), run[|run| - 1]))
  }

  function After(run: seq<Step>): State
    requires Runs(run)
    decreases |run|, 1
  {
    if run == [] then Start() else Next(After(run[..|run| - 1]), run[|run| - 1])
  }

  /** What the callers of `push` are owed: the batches pushed before the first `stop`. */
  function Accepted(run: seq<Step>): seq<Batch> {
    if run == [] then []
    else
      var init, last := run[..|run| - 1], run[|run| - 1];
      Accepted(init) + if last.Push? && Stop !in init then [last.batch] else []
  }

  /** The messages of a batch that are not empty, which are all that is written. */
  function Solid(batch: Batch): seq<Bytes> {
    if batch == [] then []
    else Solid(batch[..|batch| - 1]) + if batch[|batch| - 1] == [] then [] else [batch[|batch| - 1]]
  }

  function Messages(batches: seq<Batch>): seq<Bytes> {
    if batches == [] then [] else Messages(batches[..|batches| - 1]) + Solid(batches[|batches| - 1])
  }

  lemma {:induction false} SolidAppend(a: Batch, b: Batch)
    ensures Solid(a + b) == Solid(a) + Solid(b)
  {
    if b == [] {
      assert a + b == a;
    } else {
      SolidAppend(a, b[..|b| - 1]);
      assert (a + b)[..|a + b| - 1] == a + b[..|b| - 1];
    }
  }

  lemma MessagesLast(a: seq<Batch>, b: Batch)
    ensures Messages(a + [b]) == Messages(a) + Solid(b)
  {
    assert (a + [b])[..|a|] == a;
  }

  lemma NoMessages()
    ensures Messages([]) == []
  {
  }

  lemma Associates(a: seq<Bytes>, b: seq<Bytes>, c: seq<Bytes>)
    ensures (a + b) + c == a + (b + c)
  {
  }

  lemma {:induction false} MessagesAppend(a: seq<Batch>, b: seq<Batch>)
    ensures Messages(a + b) == Messages(a) + Messages(b)
    decreases |b|
  {
    hide *;
    if b == [] {
      assert a + b == a && Messages(a) + [] == Messages(a);
      NoMessages();
    } else {
      var init, last := b[..|b| - 1], b[|b| - 1];
      assert b == init + [last] && a + b == (a + init) + [last];
      MessagesAppend(a, init);
      MessagesLast(a + init, last);
      MessagesLast(init, last);
      Associates(Messages(a), Messages(init), Solid(last));
    }
  }

  /** The messages of the batch in hand that are still to be written. */
  function InHand(w: Writer): seq<Bytes> {
    if w.Writing? && w.done <= |w.batch| then Solid(w.batch[w.done..]) else []
  }

  /** Everything accepted and not written yet. */
  function Pending(st: State): seq<Bytes> {
    InHand(st.writer) + Messages(st.tasks)
  }

  // ----- the invariant -----

  /** The flag tells whether a batch is in hand; the writer leaves an empty queue behind, for
      good; and nobody sleeps through what it waits for. */
  predicate Inv(st: State) {
    && st.writing == st.writer.Writing?
    && (st.writer.Writing? ==> st.writer.done <= |st.writer.batch|)
    && (st.writer.Leaving? || st.writer.Gone? ==> st.stopping && st.tasks == [])
    && (st.writer.Asleep? && (st.stopping || st.tasks != []) ==> st.signals > 0)
    && (Drained(st) ==> st.sleeping == {})
    && st.ready !! st.sleeping
  }

  lemma InvKept(st: State, step: Step)
    requires Inv(st) && Enabled(st, step)
    ensures Inv(Next(st, step))
  {
    match step
    case Push(_) =>
    case Stop =>
    case Notify =>
    case Check =>
    case Write =>
    case Finish =>
    case Leave =>
    case Flush(_) =>
    case Test(_) =>
    case Wake(_) =>
    case WakeWriter =>
  }

  lemma {:induction false} AlwaysInv(run: seq<Step>)
    requires Runs(run)
    ensures Inv(After(run))
    ensures After(run).stopping <==> Stop in run
  {
    if run != [] {
      AlwaysInv(run[..|run| - 1]);
      InvKept(After(run[..|run| - 1]), run[|run| - 1]);
      assert run == run[..|run| - 1] + [run[|run| - 1]];
    }
  }

  lemma PushConserves(st: State, b: Batch)
    requires !st.stopping && b != []
    ensures Pending(Next(st, Push(b))) == Pending(st) + Solid(b)
  {
    MessagesAppend(st.tasks, [b]);
    OneBatch(b);
  }

  lemma CheckConserves(st: State)
    requires st.writer.Checking?
    ensures Pending(Next(st, Check)) == Pending(st)
  {
    if st.tasks != [] {
      var b := st.tasks[0];
      assert st.tasks == [b] + st.tasks[1..];
      MessagesAppend([b], st.tasks[1..]);
      OneBatch(b);
      assert b[0..] == b;
    }
  }

  lemma SolidStep(b: Batch, k: nat)
    requires k < |b|
    ensures Solid(b[k..]) == (if b[k] == [] then [] else [b[k]]) + Solid(b[k + 1..])
  {
    assert b[k..] == [b[k]] + b[k + 1..];
    SolidAppend([b[k]], b[k + 1..]);
    OneMessage(b[k]);
  }

  lemma Regroup(a: seq<Bytes>, h: seq<Bytes>, t: seq<Bytes>, m: seq<Bytes>)
    ensures (a + h) + (t + m) == a + ((h + t) + m)
  {
  }

  lemma WriteParts(st: State)
    requires Enabled(st, Write)
    ensures var b, k, r := st.writer.batch, st.writer.done, Next(st, Write);
            var head := if b[k] == [] then [] else [b[k]];
            && r.written == st.written + head && r.tasks == st.tasks
            && InHand(st.writer) == Solid(b[k..]) && InHand(r.writer) == Solid(b[k + 1..])
  {
    hide Solid;
  }

  lemma WriteConserves(st: State)
    requires Enabled(st, Write)
    ensures var r := Next(st, Write); r.written + Pending(r) == st.written + Pending(st)
  {
    hide Solid, Messages, InHand, Next;
    var b, k, r := st.writer.batch, st.writer.done, Next(st, Write);
    WriteParts(st);
    SolidStep(b, k);
    Regroup(st.written, if b[k] == [] then [] else [b[k]], Solid(b[k + 1..]), Messages(st.tasks));
  }

  /** One step adds to what is owed exactly what it accepts. */
  lemma StepConserves(st: State, step: Step)
    requires Inv(st) && Enabled(st, step)
    ensures var r := Next(st, step);
            r.written + Pending(r) ==
            st.written + Pending(st) + if step.Push? && !st.stopping then Solid(step.batch) else []
  {
    match step
    case Push(b) =>
      if !st.stopping {
        PushConserves(st, b);
        hide Pending;
      }
    case Check => CheckConserves(st);
    case Write => WriteConserves(st);
    case Finish => assert st.writer.batch[st.writer.done..] == [];
    case Stop =>
    case Notify =>
    case Leave =>
    case Flush(_) =>
    case Test(_) =>
    case Wake(_) =>
    case WakeWriter =>
  }

  lemma OneBatch(b: Batch)
    ensures Messages([b]) == Solid(b)
  {
    assert [b][..0] == [];
  }

  lemma OneMessage(m: Bytes)
    ensures Solid([m]) == if m == [] then [] else [m]
  {
    assert [m][..0] == [];
  }

  // ----- the main results -----

  /** Conservation: in every interleaving, what has been accepted is what has been written,
      followed by the rest of the batch in hand and by the queue, in the order of the pushes. */
  lemma {:induction false} Conservation(run: seq<Step>)
    requires Runs(run)
    ensures Messages(Accepted(run)) == After(run).written + Pending(After(run))
  {
    if run != [] {
      var init, last := run[..|run| - 1], run[|run| - 1];
      Conservation(init);
      AlwaysInv(init);
      StepConserves(After(init), last);
      hide Pending, Solid, Inv, Next;
      if last.Push? && Stop !in init {
        MessagesAppend(Accepted(init), [last.batch]);
        OneBatch(last.batch);
      } else {
        assert Accepted(run) == Accepted(init);
      }
    }
  }

  /** When a thread returns from `flush`, everything accepted so far has been written. */
  lemma FlushIsComplete(run: seq<Step>, f: nat)
    requires Runs(run) && f in After(run).ready
    ensures f !in Next(After(run), Test(f)).sleeping ==> Messages(Accepted(run)) == After(run).written
  {
    Conservation(run);
    AlwaysInv(run);
  }

  /** The writer ends only after `stop`, with everything ever accepted written. */
  lemma ExitIsComplete(run: seq<Step>)
    requires Runs(run) && After(run).writer.Gone?
    ensures Stop in run && Messages(Accepted(run)) == After(run).written
  {
    Conservation(run);
    AlwaysInv(run);
  }

  /** No lost wakeup: a writer asleep with work to do or an order to stop has a notification
      coming; a flusher asleep has unwritten batches to wait for. */
  lemma NoLostWakeup(run: seq<Step>)
    requires Runs(run)
    ensures var st := After(run);
            && (st.writer.Asleep? && (st.stopping || st.tasks != []) ==> Enabled(st, Notify))
            && (st.sleeping != {} ==> st.tasks != [] || st.writer.Writing?)
  {
    AlwaysInv(run);
  }

  /** What the writer and the pending notifications do when nobody else moves. */
  function WriterStep(st: State): Step {
    match st.writer
    case Checking => Check
    case Asleep => Notify
    case Writing(b, k) => if k < |b| then Write else Finish
    case Leaving => Leave
    case Gone => Notify
  }

  function Load(tasks: seq<Batch>): nat {
    if tasks == [] then 0 else Load(tasks[1..]) + |tasks[0]| + 2
  }

  /** How far the writer is from its end. */
  function Distance(st: State): nat {
    Load(st.tasks) +
    match st.writer
    case Asleep => 3
    case Checking => 2
    case Writing(b, k) => if k <= |b| then |b| - k + 3 else 3
    case Leaving => 1
    case Gone => 0
  }

  /** Once stopped, the writer drains the queue and ends: a run of its own steps leads from
      every reachable stopped state to its end. */
  lemma {:induction false} StopDrains(run: seq<Step>) returns (tail: seq<Step>)
    requires Runs(run) && After(run).stopping
    ensures Runs(run + tail) && After(run + tail).writer.Gone?
    ensures Messages(Accepted(run)) == After(run + tail).written
    ensures forall i :: 0 <= i < |tail| ==> !tail[i].Push?
    decreases Distance(After(run))
  {
    hide Inv, Next, Enabled, Distance, Messages, WriterStep, Pending;
    AlwaysInv(run);
    var st := After(run);
    if st.writer.Gone? {
      tail := [];
      assert run + tail == run;
      ExitIsComplete(run);
    } else {
      var step := WriterStep(st);
      var longer := run + [step];
      assert longer[..|longer| - 1] == run;
      Closer(st);
      var rest := StopDrains(longer);
      tail := [step] + rest;
      assert run + tail == longer + rest;
      assert Accepted(longer) == Accepted(run);
    }
  }

  lemma Closer(st: State)
    requires Inv(st) && st.stopping && !st.writer.Gone?
    ensures var step := WriterStep(st);
            !step.Push? && Enabled(st, step) && Next(st, step).stopping && Distance(Next(st, step)) < Distance(st)
  {
  }

  predicate InFlush(st: State, f: nat) {
    f in st.ready || f in st.sleeping
  }

  /** Flush ends: from every reachable state with a thread in `flush`, asleep or not, the writer's
      own steps and then the thread's test lead to its return, with everything accepted written. */
  lemma {:induction false} FlushReturns(run: seq<Step>, f: nat) returns (tail: seq<Step>)
    requires Runs(run) && InFlush(After(run), f)
    ensures tail != [] && tail[|tail| - 1] == Test(f)
    ensures forall i :: 0 <= i < |tail| - 1 ==> tail[i].Notify? || tail[i].Check? || tail[i].Write? || tail[i].Finish?
    ensures Runs(run + tail) && !InFlush(After(run + tail), f)
    ensures Messages(Accepted(run)) == After(run + tail).written
    decreases Distance(After(run))
  {
    hide Inv, Next, Enabled, Distance, Messages, WriterStep, Pending, InFlush, Drained;
    AlwaysInv(run);
    var st := After(run);
    var step := if Drained(st) then Test(f) else WriterStep(st);
    var longer := run + [step];
    assert longer[..|longer| - 1] == run;
    if Drained(st) {
      tail := [step];
      TestReturns(st, f);
      FlushIsComplete(run, f);
    } else {
      FlushCloser(st, f);
      var rest := FlushReturns(longer, f);
      tail := [step] + rest;
      assert run + tail == longer + rest;
      assert Accepted(longer) == Accepted(run);
    }
  }

  /** What is pushed before `stop` can be flushed at once: the flush returns with the batch written, behind
      everything accepted before it. */
  lemma PushThenFlush(run: seq<Step>, b: Batch, f: nat) returns (tail: seq<Step>)
    requires Runs(run) && b != [] && Stop !in run && !InFlush(After(run), f)
    ensures tail != [] && tail[|tail| - 1] == Test(f)
    ensures Runs(run + [Push(b), Flush(f)] + tail) && !InFlush(After(run + [Push(b), Flush(f)] + tail), f)
    ensures After(run + [Push(b), Flush(f)] + tail).written == Messages(Accepted(run)) + Solid(b)
  {
    var pushed := run + [Push(b)];
    var asked := pushed + [Flush(f)];
    assert pushed[..|pushed| - 1] == run && asked[..|asked| - 1] == pushed;
    assert After(pushed).ready == After(run).ready && After(pushed).sleeping == After(run).sleeping;
    assert Accepted(asked) == Accepted(pushed) == Accepted(run) + [b];
    assert InFlush(After(asked), f);
    MessagesLast(Accepted(run), b);
    assert run + [Push(b), Flush(f)] == asked;
    hide Runs, After, Accepted, Messages, Solid, InFlush;
    tail := FlushReturns(asked, f);
  }

  lemma TestReturns(st: State, f: nat)
    requires Inv(st) && Drained(st) && InFlush(st, f)
    ensures f in st.ready && Enabled(st, Test(f))
    ensures var r := Next(st, Test(f)); !InFlush(r, f) && f !in r.sleeping && r.written == st.written
  {
  }

  lemma FlushCloser(st: State, f: nat)
    requires Inv(st) && !Drained(st) && InFlush(st, f)
    ensures var step := WriterStep(st);
            && (step.Notify? || step.Check? || step.Write? || step.Finish?)
            && Enabled(st, step) && InFlush(Next(st, step), f) && Distance(Next(st, step)) < Distance(st)
  {
  }
}
