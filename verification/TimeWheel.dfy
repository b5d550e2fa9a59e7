/** The idle time wheel: a queue of buckets of shared slots. A slot's destructor shuts its
    connection down, so the last reference to go is the event that matters. The wheel is
    compared with a map from each slot to the tick of its last refresh, which is read off
    the run alone. */
module TimeWheel {

  /** One `AbstractSlot` object, together with the connection it points to weakly. */
  type Slot = nat

  // ----- the reference counts and the destructor -----

  /** The connections whose shutdown the drops of `bucket`, first to last, bring about when
      the slots have the counts `refs`: an element counts if no reference is left behind it. */
  function Farewells(refs: multiset<Slot>, conns: set<Slot>, bucket: seq<Slot>): seq<Slot> {
    if bucket == [] then []
    else
      var slot := bucket[|bucket| - 1];
      Farewells(refs, conns, bucket[..|bucket| - 1])
      + if refs[slot] == multiset(bucket)[slot] && slot in conns then [slot] else []
  }

  /** The counts once each element of `bucket` has been dropped. */
  function Less(refs: multiset<Slot>, bucket: seq<Slot>): multiset<Slot> {
    refs - multiset(bucket)
  }

  /** The control blocks of all slots: strong counts, and which connections still exist. */
  class SlotTable {
    var refs: multiset<Slot>
    var conns: set<Slot>
    var shut: seq<Slot>

    constructor ()
      ensures refs == multiset{} && conns == {} && shut == []
    {
      refs, conns, shut := multiset{}, {}, [];
    }

    method Share(slot: Slot)
      modifies this`refs
      ensures refs == old(refs) + multiset{slot}
    {
      refs := refs[slot := refs[slot] + 1];
    }

    /** Drops one reference; the last one runs `~AbstractSlot`. */
    method Drop(slot: Slot)
      requires slot in refs
      modifies this`refs, this`shut
      ensures refs == Less(old(refs), [slot])
      ensures shut == old(shut) + Farewells(old(refs), conns, [slot])
    {
      refs := refs[slot := refs[slot] - 1];
      if refs[slot] == 0 && slot in conns {
        shut := shut + [slot];
      }
      FarewellsOne(old(refs), conns, slot);
    }

    /** Destroys a popped bucket, element by element. */
    method DropAll(bucket: seq<Slot>)
      requires multiset(bucket) <= refs
      modifies this`refs, this`shut
      ensures refs == Less(old(refs), bucket)
      ensures shut == old(shut) + Farewells(old(refs), conns, bucket)
    {
      hide Farewells, Less;
      DropNone(refs, conns);
      var i := 0;
      while i < |bucket|
        invariant 0 <= i <= |bucket|
        invariant refs == Less(old(refs), bucket[..i])
        invariant shut == old(shut) + Farewells(old(refs), conns, bucket[..i])
      {
        LessOneMore(old(refs), bucket, i);
        FarewellsOneMore(old(refs), conns, bucket, i);
        Drop(bucket[i]);
        i := i + 1;
      }
      assert bucket[..i] == bucket;
    }
  }

  lemma DropNone(refs: multiset<Slot>, conns: set<Slot>)
    ensures Farewells(refs, conns, []) == [] && Less(refs, []) == refs
  {
  }

  lemma FarewellsOne(refs: multiset<Slot>, conns: set<Slot>, slot: Slot)
    ensures Farewells(refs, conns, [slot]) == if refs[slot] == 1 && slot in conns then [slot] else []
  {
    assert [slot][..0] == [];
    assert multiset([slot])[slot] == 1;
  }

  lemma LessOneMore(refs: multiset<Slot>, bucket: seq<Slot>, i: nat)
    requires i < |bucket| && multiset(bucket) <= refs
    ensures bucket[i] in Less(refs, bucket[..i])
    ensures Less(refs, bucket[..i + 1]) == Less(Less(refs, bucket[..i]), [bucket[i]])
  {
    var done, more, slot := multiset(bucket[..i]), multiset(bucket[..i + 1]), bucket[i];
    assert bucket[..i + 1] == bucket[..i] + [slot];
    assert more == done + multiset{slot};
    assert bucket == bucket[..i + 1] + bucket[i + 1..];
    assert done[slot] < more[slot] <= multiset(bucket)[slot] <= refs[slot];
  }

  lemma FarewellsOneMore(refs: multiset<Slot>, conns: set<Slot>, bucket: seq<Slot>, i: nat)
    requires i < |bucket| && multiset(bucket) <= refs
    ensures Farewells(refs, conns, bucket[..i + 1]) ==
            Farewells(refs, conns, bucket[..i]) + Farewells(Less(refs, bucket[..i]), conns, [bucket[i]])
  {
    var done, more, slot := bucket[..i], bucket[..i + 1], bucket[i];
    assert more[..|more| - 1] == done;
    assert multiset(more)[slot] == multiset(done)[slot] + 1 by {
      assert more == done + [slot];
    }
    LessOneMore(refs, bucket, i);
    FarewellsOne(Less(refs, done), conns, slot);
    assert Less(refs, done)[slot] == refs[slot] - multiset(done)[slot];
  }

  /** Who is shut down: exactly the slots all of whose references were in the bucket, once each. */
  lemma {:induction false} FarewellsExact(refs: multiset<Slot>, conns: set<Slot>, bucket: seq<Slot>, slot: Slot)
    requires multiset(bucket) <= refs
    ensures multiset(Farewells(refs, conns, bucket))[slot] ==
            if slot in bucket && slot in conns && refs[slot] == multiset(bucket)[slot] then 1 else 0
  {
    if bucket != [] {
      var init, last := bucket[..|bucket| - 1], bucket[|bucket| - 1];
      assert bucket == init + [last];
      assert multiset(init) <= multiset(bucket);
      FarewellsExact(refs, conns, init, slot);
    }
  }

  // ----- the state and its steps -----

  /** `tasks` are the refresh tasks queued at the main reactor, each holding a reference;
      `held` are the references in local variables of other threads; `born` all slots made. */
  datatype State = State(wheel: seq<seq<Slot>>, tasks: seq<Slot>, held: multiset<Slot>,
                         conns: set<Slot>, shut: seq<Slot>, born: set<Slot>)

  datatype Step =
    | Register(slot: Slot)       // make_shared<AbstractSlot> for a connection
    | Lock(slot: Slot)           // m_weak_slot.lock()
    | Post(slot: Slot)           // freshTcpConnection: the lambda takes a copy
    | Release(slot: Slot)        // the local pointer goes out of scope
    | RunTask(slot: Slot)        // the main reactor runs its oldest refresh task
    | Tick                       // the timer runs loopFunc
    | Disconnect(slot: Slot)     // the connection object dies

  function Census(wheel: seq<seq<Slot>>): multiset<Slot> {
    if wheel == [] then multiset{} else multiset(wheel[0]) + Census(wheel[1..])
  }

  /** All strong references there are. */
  function Owners(st: State): multiset<Slot> {
    Census(st.wheel) + multiset(st.tasks) + st.held
  }

  predicate Alive(st: State, slot: Slot) {
    slot in Owners(st)
  }

  predicate InFlight(st: State, slot: Slot) {
    slot in st.tasks || slot in st.held
  }

  /** `n` empty buckets. */
  function NoSlots(n: nat): (wheel: seq<seq<Slot>>)
    ensures |wheel| == n
  {
    if n == 0 then [] else NoSlots(n - 1) + [[]]
  }

  function Start(n: nat): State {
    State(NoSlots(n), [], multiset{}, {}, [], {})
  }

  predicate Enabled(st: State, step: Step) {
    match step
    case Register(s) => s !in st.born
    case Post(s) => s in st.held
    case Release(s) => s in st.held
    case RunTask(s) => st.tasks != [] && st.tasks[0] == s
    case _ => true
  }

  function Next(st: State, step: Step): State
    requires |st.wheel| > 0 && Enabled(st, step)
  {
    match step
    case Register(s) => st.(born := st.born + {s}, conns := st.conns + {s}, held := st.held + multiset{s})
    case Lock(s) => if Alive(st, s) then st.(held := st.held + multiset{s}) else st
    case Post(s) => st.(tasks := st.tasks + [s])
    case Release(s) =>
      st.(held := st.held - multiset{s}, shut := st.shut + Farewells(Owners(st), st.conns, [s]))
    case RunTask(s) =>
      var back := |st.wheel| - 1;
      st.(wheel := st.wheel[back := st.wheel[back] + [s]], tasks := st.tasks[1..])
    case Tick =>
      st.(wheel := st.wheel[1..] + [[]], shut := st.shut + Farewells(Owners(st), st.conns, st.wheel[0]))
    case Disconnect(s) => st.(conns := st.conns - {s})
  }

  // ----- the classes -----

  /** `TcpTimeWheel`: the buckets, oldest first. */
  class TcpTimeWheel {
    const slots: SlotTable
    var wheel: seq<seq<Slot>>

    constructor (slots: SlotTable, bucketCount: nat)
      ensures this.slots == slots && wheel == NoSlots(bucketCount)
    {
      this.slots := slots;
      wheel := [];
      new;
      for i := 0 to bucketCount
        invariant wheel == NoSlots(i)
      {
        wheel := wheel + [[]];
      }
    }

    /** `m_wheel.back().emplace_back(slot)`. */
    method Fresh(slot: Slot)
      requires wheel != []
      modifies this, slots`refs
      ensures wheel == old(wheel[|wheel| - 1 := wheel[|wheel| - 1] + [slot]])
      ensures slots.refs == old(slots.refs) + multiset{slot}
    {
      slots.Share(slot);
      var back := |wheel| - 1;
      wheel := wheel[back := wheel[back] + [slot]];
    }

    /** Pops the oldest bucket, which destroys its references, and pushes an empty one. */
    method LoopFunc()
      requires wheel != [] && multiset(wheel[0]) <= slots.refs
      modifies this, slots`refs, slots`shut
      ensures wheel == old(wheel[1..]) + [[]]
      ensures slots.refs == old(Less(slots.refs, wheel[0]))
      ensures slots.shut == old(slots.shut + Farewells(slots.refs, slots.conns, wheel[0]))
    {
      slots.DropAll(wheel[0]);
      wheel := wheel[1..] + [[]];
    }
  }

  /** The part of `TcpServer` and of its connections that deals with the wheel. The counts
      are counted here one by one; `Valid` says they are the owners there are. */
  class TcpServer {
    const slots: SlotTable
    const timeWheel: TcpTimeWheel
    var tasks: seq<Slot>
    var held: multiset<Slot>
    var born: set<Slot>

    ghost function Abs(): State
      reads this, slots, timeWheel
    {
      State(timeWheel.wheel, tasks, held, slots.conns, slots.shut, born)
    }

    ghost predicate Valid()
      reads this, slots, timeWheel
    {
      && timeWheel.slots == slots
      && timeWheel.wheel != []
      && slots.refs == Owners(Abs())
    }

    constructor (bucketCount: nat)
      requires bucketCount > 0
      ensures Valid() && Abs() == Start(bucketCount) && fresh(slots) && fresh(timeWheel)
    {
      var table := new SlotTable();
      slots := table;
      timeWheel := new TcpTimeWheel(table, bucketCount);
      tasks, held, born := [], multiset{}, {};
      new;
      EmptyWheel(bucketCount);
    }

    /** `registerToTimeWheel` up to `make_shared`. */
    method Register(slot: Slot)
      requires Valid() && slot !in born
      modifies this, slots
      ensures Valid() && Abs() == Next(old(Abs()), Step.Register(slot))
    {
      slots.conns := slots.conns + {slot};
      slots.Share(slot);
      born, held := born + {slot}, held + multiset{slot};
    }

    /** `m_weak_slot.lock()`: empty once the count has reached zero. */
    method Lock(slot: Slot) returns (locked: bool)
      requires Valid()
      modifies this, slots`refs
      ensures locked == Alive(old(Abs()), slot)
      ensures Valid() && Abs() == Next(old(Abs()), Step.Lock(slot))
    {
      locked := slots.refs[slot] > 0;
      if locked {
        slots.Share(slot);
        held := held + multiset{slot};
      }
    }

    method FreshTcpConnection(slot: Slot)
      requires Valid() && slot in held
      modifies this, slots`refs
      ensures Valid() && Abs() == Next(old(Abs()), Post(slot))
    {
      slots.Share(slot);
      tasks := tasks + [slot];
    }

    method Release(slot: Slot)
      requires Valid() && slot in held
      modifies this, slots`refs, slots`shut
      ensures Valid() && Abs() == Next(old(Abs()), Step.Release(slot))
    {
      hide Farewells, Less, Owners, Census;
      LessHeld(Abs(), slot);
      assert slot in Owners(Abs()) by { HeldOwned(Abs(), slot); }
      ghost var st := Abs();
      slots.Drop(slot);
      held := held - multiset{slot};
      NextOwners(st, Step.Release(slot));
    }

    /** The lambda of `freshTcpConnection`: refresh, then reset the captured pointer. */
    method Refresh(slot: Slot)
      requires timeWheel.slots == slots && timeWheel.wheel != []
      modifies timeWheel, slots`refs, slots`shut
      ensures var back := |old(timeWheel.wheel)| - 1;
              timeWheel.wheel == old(timeWheel.wheel[back := timeWheel.wheel[back] + [slot]])
      ensures slots.refs == Less(old(slots.refs) + multiset{slot}, [slot])
      ensures slots.shut == old(slots.shut + Farewells(slots.refs + multiset{slot}, slots.conns, [slot]))
    {
      hide Farewells, Less;
      timeWheel.Fresh(slot);
      slots.Drop(slot);
    }

    /** The main reactor runs its oldest task. */
    method RunTask()
      requires Valid() && tasks != []
      modifies this, timeWheel, slots`refs, slots`shut
      ensures Valid() && Abs() == Next(old(Abs()), Step.RunTask(old(tasks[0])))
    {
      hide Farewells, Less, Owners;
      RunTaskOwners(Abs());
      var slot := tasks[0];
      tasks := tasks[1..];
      Refresh(slot);
      assert old(slots.shut) + [] == old(slots.shut);
    }

    /** The connection object dies; its slot, if any, will find the weak pointer empty. */
    method Disconnect(slot: Slot)
      requires Valid()
      modifies slots`conns
      ensures Valid() && Abs() == Next(old(Abs()), Step.Disconnect(slot))
    {
      slots.conns := slots.conns - {slot};
    }

    method Tick()
      requires Valid()
      modifies this, timeWheel, slots`refs, slots`shut
      ensures Valid() && Abs() == Next(old(Abs()), Step.Tick)
    {
      hide Farewells, Less, Owners;
      TickOwners(Abs());
      timeWheel.LoopFunc();
    }
  }

  // ----- counting references -----

  lemma {:induction false} EmptyWheel(n: nat)
    ensures Census(NoSlots(n)) == multiset{}
    ensures forall i :: 0 <= i < n ==> NoSlots(n)[i] == []
  {
    if n > 0 {
      EmptyWheel(n - 1);
      CensusAppend(NoSlots(n - 1), []);
    }
  }

  lemma {:induction false} CensusAppend(wheel: seq<seq<Slot>>, bucket: seq<Slot>)
    ensures Census(wheel + [bucket]) == Census(wheel) + multiset(bucket)
  {
    if wheel != [] {
      CensusAppend(wheel[1..], bucket);
      assert (wheel + [bucket])[1..] == wheel[1..] + [bucket];
    }
  }

  lemma {:induction false} CensusUpdate(wheel: seq<seq<Slot>>, i: nat, slot: Slot)
    requires i < |wheel|
    ensures Census(wheel[i := wheel[i] + [slot]]) == Census(wheel) + multiset{slot}
  {
    if i > 0 {
      CensusUpdate(wheel[1..], i - 1, slot);
      assert wheel[i := wheel[i] + [slot]][1..] == wheel[1..][i - 1 := wheel[1..][i - 1] + [slot]];
    } else {
      assert wheel[i := wheel[i] + [slot]][1..] == wheel[1..];
    }
  }

  lemma LessAdded(refs: multiset<Slot>, slot: Slot)
    ensures Less(refs + multiset{slot}, [slot]) == refs
  {
  }

  /** Running a task moves a reference; it is never the last one that is dropped. */
  lemma RunTaskOwners(st: State)
    requires st.wheel != [] && st.tasks != []
    ensures var slot, more := st.tasks[0], Owners(st) + multiset{st.tasks[0]};
            && slot in more
            && Owners(Next(st, RunTask(slot))) == Owners(st) == Less(more, [slot])
            && Farewells(more, st.conns, [slot]) == []
  {
    hide Farewells, Less;
    var slot, rest := st.tasks[0], st.tasks[1..];
    CensusUpdate(st.wheel, |st.wheel| - 1, slot);
    assert multiset(st.tasks) == multiset{slot} + multiset(rest) by {
      assert st.tasks == [slot] + rest;
    }
    hide Census;
    LessAdded(Owners(st), slot);
    FarewellsOne(Owners(st) + multiset{slot}, st.conns, slot);
  }

  lemma TickOwners(st: State)
    requires st.wheel != []
    ensures multiset(st.wheel[0]) <= Owners(st)
    ensures Owners(Next(st, Tick)) == Less(Owners(st), st.wheel[0])
  {
    CensusAppend(st.wheel[1..], []);
  }

  lemma {:induction false} CensusMember(wheel: seq<seq<Slot>>, slot: Slot)
    ensures slot in Census(wheel) <==> exists i :: 0 <= i < |wheel| && slot in wheel[i]
  {
    if wheel != [] {
      CensusMember(wheel[1..], slot);
      assert forall i :: 0 < i < |wheel| ==> wheel[i] == wheel[1..][i - 1];
      if i :| 0 <= i < |wheel[1..]| && slot in wheel[1..][i] {
        assert slot in wheel[i + 1];
      }
    }
  }

  // ----- runs, and the reference: last refresh per slot -----

  predicate Runs(n: nat, run: seq<Step>)
    decreases |run|, 0
  {
    run == [] || (Runs(n, run[..|run| - 1]) && n > 0 && Enabled(After(n, run[..|run| - 1]), run[|run| - 1]))
  }

  function After(n: nat, run: seq<Step>): (st: State)
    requires Runs(n, run)
    ensures |st.wheel| == n
    decreases |run|, 1
  {
    if run == [] then Start(n) else Next(After(n, run[..|run| - 1]), run[|run| - 1])
  }

  /** The number of ticks so far. */
  function Now(run: seq<Step>): nat {
    if run == [] then 0 else Now(run[..|run| - 1]) + if run[|run| - 1].Tick? then 1 else 0
  }

  /** The tick count at the slot's last refresh, or -1. */
  function LastRefresh(run: seq<Step>, slot: Slot): (t: int)
    ensures -1 <= t <= Now(run)
  {
    if run == [] then -1
    else if run[|run| - 1] == RunTask(slot) then Now(run[..|run| - 1])
    else LastRefresh(run[..|run| - 1], slot)
  }

  /** The slots refreshed while the tick count was `t`, in order. */
  function RefreshedAt(run: seq<Step>, t: int): seq<Slot> {
    if run == [] then []
    else
      var init, last := run[..|run| - 1], run[|run| - 1];
      RefreshedAt(init, t) + if last.RunTask? && Now(init) == t then [last.slot] else []
  }

  lemma {:induction false} RefreshedAtTimes(run: seq<Step>, t: int, slot: Slot)
    ensures slot in RefreshedAt(run, t) ==> 0 <= t <= LastRefresh(run, slot)
    ensures t >= 0 && t == LastRefresh(run, slot) ==> slot in RefreshedAt(run, t)
  {
    if run != [] {
      RefreshedAtTimes(run[..|run| - 1], t, slot);
    }
  }

  lemma {:induction false} NothingRefreshedYet(run: seq<Step>, t: int)
    requires t > Now(run) || t < 0
    ensures RefreshedAt(run, t) == []
  {
    if run != [] {
      NothingRefreshedYet(run[..|run| - 1], t);
    }
  }

  lemma NextTick(st: State, i: nat)
    requires i < |st.wheel|
    ensures Enabled(st, Tick) && |Next(st, Tick).wheel| == |st.wheel|
    ensures Next(st, Tick).wheel[i] == if i == |st.wheel| - 1 then [] else st.wheel[i + 1]
  {
  }

  /** Only a refresh changes a bucket between two ticks, and only the newest. */
  lemma NextWheel(st: State, step: Step, i: nat)
    requires i < |st.wheel| && Enabled(st, step) && !step.Tick?
    ensures Next(st, step).wheel[i] ==
            st.wheel[i] + if step.RunTask? && i == |st.wheel| - 1 then [step.slot] else []
  {
    match step
    case RunTask(s) =>
    case _ => assert Next(st, step).wheel == st.wheel;
  }

  lemma RefreshedMore(run: seq<Step>, t: int)
    requires run != []
    ensures var init, last := run[..|run| - 1], run[|run| - 1];
            && Now(run) == Now(init) + (if last.Tick? then 1 else 0)
            && RefreshedAt(run, t) == RefreshedAt(init, t) + if last.RunTask? && Now(init) == t then [last.slot] else []
  {
  }

  lemma AfterMore(n: nat, run: seq<Step>)
    requires Runs(n, run) && run != []
    ensures var init, last := run[..|run| - 1], run[|run| - 1];
            Runs(n, init) && n > 0 && Enabled(After(n, init), last) && After(n, run) == Next(After(n, init), last)
  {
  }

  /** The refreshes bucket `i` should hold after a run. */
  function Expected(n: nat, run: seq<Step>, i: nat): seq<Slot> {
    RefreshedAt(run, Now(run) - (n - 1 - i))
  }

  lemma ExpectedMore(n: nat, run: seq<Step>, i: nat)
    requires run != [] && i < n
    ensures var init, last := run[..|run| - 1], run[|run| - 1];
            Expected(n, run, i) ==
            if last.Tick? then (if i == n - 1 then [] else Expected(n, init, i + 1))
            else Expected(n, init, i) + if last.RunTask? && i == n - 1 then [last.slot] else []
  {
    var init := run[..|run| - 1];
    RefreshedMore(run, Now(run) - (n - 1 - i));
    hide RefreshedAt, Now;
    if run[|run| - 1].Tick? && i == n - 1 {
      NothingRefreshedYet(init, Now(run));
    }
  }

  /** Each bucket holds the refreshes of its own tick, in their order, repetitions included. */
  lemma {:induction false} BucketsAreTicks(n: nat, run: seq<Step>, i: nat)
    requires Runs(n, run) && i < n
    ensures After(n, run).wheel[i] == Expected(n, run, i)
    decreases |run|
  {
    if run == [] {
      EmptyWheel(n);
    } else {
      hide *;
      AfterMore(n, run);
      ExpectedMore(n, run, i);
      var init, last := run[..|run| - 1], run[|run| - 1];
      var st := After(n, init);
      assert i < |st.wheel| && Enabled(st, last);
      if last.Tick? {
        NextTick(st, i);
        if i < n - 1 {
          BucketsAreTicks(n, init, i + 1);
        }
      } else {
        NextWheel(st, last, i);
        BucketsAreTicks(n, init, i);
      }
    }
  }

  /** A slot has a reference in the wheel iff its last refresh is less than `n` ticks ago. */
  lemma {:induction false} WheelIsWindow(n: nat, run: seq<Step>, slot: Slot)
    requires Runs(n, run)
    ensures slot in Census(After(n, run).wheel) <==>
            LastRefresh(run, slot) >= 0 && Now(run) - LastRefresh(run, slot) < n
  {
    hide After, RefreshedAt, Census, Next;
    var wheel, now, last := After(n, run).wheel, Now(run), LastRefresh(run, slot);
    CensusMember(wheel, slot);
    if i: nat :| i < n && slot in wheel[i] {
      BucketsAreTicks(n, run, i);
      RefreshedAtTimes(run, now - (n - 1 - i), slot);
    }
    if last >= 0 && now - last < n {
      var i := n - 1 - (now - last);
      BucketsAreTicks(n, run, i);
      RefreshedAtTimes(run, last, slot);
    }
  }

  /** The wheel refines the last-refresh map: after any run, a slot is alive exactly while a
      reference to it is in flight or its last refresh is less than `n` ticks ago. */
  lemma {:induction false} AliveExactly(n: nat, run: seq<Step>, slot: Slot)
    requires Runs(n, run)
    ensures Alive(After(n, run), slot) <==>
            || InFlight(After(n, run), slot)
            || (LastRefresh(run, slot) >= 0 && Now(run) - LastRefresh(run, slot) < n)
  {
    WheelIsWindow(n, run, slot);
  }

  /** The only two ways to die: on the `n`-th tick after the last refresh with nothing in
      flight, or with the last local reference, when the wheel has already let go. */
  lemma {:induction false} DeathExactly(n: nat, run: seq<Step>, step: Step, slot: Slot)
    requires Runs(n, run + [step]) && Runs(n, run)
    requires Alive(After(n, run), slot)
    ensures !Alive(After(n, run + [step]), slot) <==>
            || (step == Tick && !InFlight(After(n, run), slot) && Now(run) + 1 == LastRefresh(run, slot) + n)
            || (&& step == Release(slot) && After(n, run).held[slot] == 1 && slot !in After(n, run).tasks
                && !(LastRefresh(run, slot) >= 0 && Now(run) - LastRefresh(run, slot) < n))
  {
    assert (run + [step])[..|run|] == run;
    AliveExactly(n, run, slot);
    AliveExactly(n, run + [step], slot);
    hide Farewells, Owners, Alive;
    match step
    case Tick =>
    case Release(_) =>
    case Register(_) =>
    case Lock(_) =>
    case Post(_) =>
    case RunTask(_) =>
    case Disconnect(_) =>
  }

  // ----- the shutdown action -----

  /** What each step does to the reference counts. */
  lemma NextOwners(st: State, step: Step)
    requires st.wheel != [] && Enabled(st, step)
    ensures Owners(Next(st, step)) ==
            match step
            case Register(s) => Owners(st) + multiset{s}
            case Lock(s) => if Alive(st, s) then Owners(st) + multiset{s} else Owners(st)
            case Post(s) => Owners(st) + multiset{s}
            case Release(s) => Less(Owners(st), [s])
            case RunTask(_) => Owners(st)
            case Tick => Less(Owners(st), st.wheel[0])
            case Disconnect(_) => Owners(st)
  {
    hide Farewells, Less, Census;
    match step
    case RunTask(s) => RunTaskOwners(st);
    case Tick => TickOwners(st);
    case Register(_) =>
    case Lock(_) =>
    case Post(_) =>
    case Release(s) => LessHeld(st, s);
    case Disconnect(_) =>
  }

  lemma HeldOwned(st: State, slot: Slot)
    requires slot in st.held
    ensures slot in Owners(st)
  {
  }

  lemma LessHeld(st: State, slot: Slot)
    requires slot in st.held
    ensures Census(st.wheel) + multiset(st.tasks) + (st.held - multiset{slot}) == Less(Owners(st), [slot])
  {
    hide Census;
    var rest := st.held - multiset{slot};
    assert st.held == rest + multiset{slot};
    LessAdded(Census(st.wheel) + multiset(st.tasks) + rest, slot);
  }

  lemma TickShuts(st: State, slot: Slot)
    requires st.wheel != []
    ensures multiset(Next(st, Tick).shut)[slot] - multiset(st.shut)[slot] ==
            if Alive(st, slot) && !Alive(Next(st, Tick), slot) && slot in st.conns then 1 else 0
  {
    hide Farewells, Owners;
    TickOwners(st);
    var refs, bucket := Owners(st), st.wheel[0];
    FarewellsExact(refs, st.conns, bucket, slot);
    assert Less(refs, bucket)[slot] == refs[slot] - multiset(bucket)[slot];
  }

  lemma ReleaseShuts(st: State, s: Slot, slot: Slot)
    requires st.wheel != [] && s in st.held
    ensures multiset(Next(st, Release(s)).shut)[slot] - multiset(st.shut)[slot] ==
            if Alive(st, slot) && !Alive(Next(st, Release(s)), slot) && slot in st.conns then 1 else 0
  {
    hide Farewells, Owners;
    HeldOwned(st, s);
    NextOwners(st, Release(s));
    var refs := Owners(st);
    FarewellsOne(refs, st.conns, s);
    assert Less(refs, [s])[slot] == refs[slot] - if slot == s then 1 else 0;
  }

  /** A step shuts a connection down iff it takes the slot's last reference while the
      connection exists, and then once. */
  lemma ShutByDeath(st: State, step: Step, slot: Slot)
    requires st.wheel != [] && Enabled(st, step)
    ensures multiset(Next(st, step).shut)[slot] - multiset(st.shut)[slot] ==
            if Alive(st, slot) && !Alive(Next(st, step), slot) && slot in st.conns then 1 else 0
  {
    hide Farewells, Owners;
    match step
    case Tick => TickShuts(st, slot);
    case Release(s) => ReleaseShuts(st, s, slot);
    case Register(_) => NextOwners(st, step);
    case Lock(_) => NextOwners(st, step);
    case Post(_) => NextOwners(st, step);
    case RunTask(_) => NextOwners(st, step);
    case Disconnect(_) => NextOwners(st, step);
  }

  /** References are only ever made from references: once dead, a slot stays dead. */
  lemma NoRevival(st: State, step: Step, slot: Slot)
    requires st.wheel != [] && Enabled(st, step) && slot in st.born && !Alive(st, slot)
    ensures slot in Next(st, step).born && !Alive(Next(st, step), slot)
  {
    NextOwners(st, step);
    match step
    case Tick =>
    case Release(_) =>
    case Register(_) =>
    case Lock(_) =>
    case Post(_) =>
    case RunTask(_) =>
    case Disconnect(_) =>
  }

  /** In every run a connection is shut down at most once, and only after its slot died. */
  lemma {:induction false} ShutdownOnce(n: nat, run: seq<Step>, slot: Slot)
    requires Runs(n, run)
    ensures multiset(After(n, run).shut)[slot] <= 1
    ensures slot in After(n, run).shut ==> !Alive(After(n, run), slot)
    ensures slot in After(n, run).shut || Alive(After(n, run), slot) ==> slot in After(n, run).born
  {
    hide Farewells, Owners, Next, Enabled;
    if run == [] {
      EmptyCensus(n);
    } else {
      var init, step := run[..|run| - 1], run[|run| - 1];
      var st := After(n, init);
      ShutdownOnce(n, init, slot);
      ShutByDeath(st, step, slot);
      if slot in st.born {
        if !Alive(st, slot) {
          NoRevival(st, step, slot);
        }
      }
      StaysBorn(st, step, slot);
    }
  }

  lemma EmptyCensus(n: nat)
    ensures Owners(Start(n)) == multiset{}
  {
    EmptyWheel(n);
  }

  lemma StaysBorn(st: State, step: Step, slot: Slot)
    requires st.wheel != [] && Enabled(st, step)
    ensures slot in st.born ==> slot in Next(st, step).born
    ensures Alive(Next(st, step), slot) && slot !in st.born ==> Alive(st, slot) || slot in Next(st, step).born
  {
    NextOwners(st, step);
    match step
    case Tick =>
    case Release(_) =>
    case Register(_) =>
    case Lock(_) =>
    case Post(_) =>
    case RunTask(_) =>
    case Disconnect(_) =>
  }

  // ----- the state as history -----

  /** The refreshes posted, in order. */
  function Posted(run: seq<Step>): seq<Slot> {
    if run == [] then []
    else Posted(run[..|run| - 1]) + if run[|run| - 1].Post? then [run[|run| - 1].slot] else []
  }

  /** How many of them have been run. */
  function Ran(run: seq<Step>): nat {
    if run == [] then 0 else Ran(run[..|run| - 1]) + if run[|run| - 1].RunTask? then 1 else 0
  }

  /** The queue holds every refresh posted and not run yet, first come, first served. */
  lemma {:induction false} TasksArePosts(n: nat, run: seq<Step>)
    requires Runs(n, run)
    ensures Ran(run) <= |Posted(run)| && After(n, run).tasks == Posted(run)[Ran(run)..]
  {
    if run != [] {
      var init, last := run[..|run| - 1], run[|run| - 1];
      TasksArePosts(n, init);
      NextTasks(After(n, init), last);
      hide Next, Enabled;
      var posted, ran := Posted(init), Ran(init);
      assert last.Post? ==> (posted + [last.slot])[ran..] == posted[ran..] + [last.slot];
      assert last.RunTask? ==> posted[ran..][1..] == posted[ran + 1..];
    }
  }

  lemma NextTasks(st: State, step: Step)
    requires |st.wheel| > 0 && Enabled(st, step)
    ensures step.RunTask? ==> st.tasks != []
    ensures Next(st, step).tasks ==
            if step.Post? then st.tasks + [step.slot] else if step.RunTask? then st.tasks[1..] else st.tasks
  {
    match step
    case Tick => case Release(_) => case Register(_) => case Lock(_) => case Post(_) => case RunTask(_) =>
    case Disconnect(_) =>
  }

  /** References taken into local variables, and not released: one by the registration, one by each
      lock that found the slot alive. */
  function Holds(n: nat, run: seq<Step>, slot: Slot): int
    requires Runs(n, run)
  {
    if run == [] then 0
    else
      var init, last := run[..|run| - 1], run[|run| - 1];
      Holds(n, init, slot)
      + if last == Register(slot) || (last == Lock(slot) && Alive(After(n, init), slot)) then 1
        else if last == Release(slot) then -1 else 0
  }

  lemma {:induction false} HeldIsHolds(n: nat, run: seq<Step>, slot: Slot)
    requires Runs(n, run)
    ensures After(n, run).held[slot] == Holds(n, run, slot)
  {
    hide Alive;
    if run != [] {
      var init, last := run[..|run| - 1], run[|run| - 1];
      HeldIsHolds(n, init, slot);
      match last
      case Tick => case Release(_) => case Register(_) => case Lock(_) => case Post(_) => case RunTask(_) =>
      case Disconnect(_) =>
    }
  }

  /** The slot's connection was made and has not died since. */
  ghost predicate Connected(run: seq<Step>, slot: Slot) {
    exists k :: 0 <= k < |run| && run[k] == Register(slot) && NoDisconnect(run[k + 1..], slot)
  }

  predicate NoDisconnect(steps: seq<Step>, slot: Slot) {
    forall i :: 0 <= i < |steps| ==> steps[i] != Disconnect(slot)
  }

  lemma ConnectedMore(run: seq<Step>, step: Step, slot: Slot)
    ensures Connected(run + [step], slot) <==>
            step == Register(slot) || (Connected(run, slot) && step != Disconnect(slot))
  {
    var more := run + [step];
    assert more[|run|] == step && more[|run| + 1..] == [];
    forall k | 0 <= k < |run|
      ensures more[k] == run[k]
      ensures NoDisconnect(more[k + 1..], slot) <==> NoDisconnect(run[k + 1..], slot) && step != Disconnect(slot)
    {
      assert more[k + 1..] == run[k + 1..] + [step];
      NoDisconnectMore(run[k + 1..], step, slot);
    }
    if Connected(run, slot) && step != Disconnect(slot) {
      var k :| 0 <= k < |run| && run[k] == Register(slot) && NoDisconnect(run[k + 1..], slot);
      assert more[k] == Register(slot) && NoDisconnect(more[k + 1..], slot);
    }
    assert step == Register(slot) ==> NoDisconnect(more[|run| + 1..], slot);
  }

  lemma NoDisconnectMore(steps: seq<Step>, step: Step, slot: Slot)
    ensures NoDisconnect(steps + [step], slot) <==> NoDisconnect(steps, slot) && step != Disconnect(slot)
  {
    var more := steps + [step];
    assert more[|steps|] == step;
    assert forall i :: 0 <= i < |steps| ==> more[i] == steps[i];
  }

  /** Which connections the slots still find. */
  lemma {:induction false} ConnsAreConnected(n: nat, run: seq<Step>, slot: Slot)
    requires Runs(n, run)
    ensures slot in After(n, run).conns <==> Connected(run, slot)
  {
    hide Connected;
    if run == [] {
      NotConnectedYet(slot);
    } else {
      var init, last := run[..|run| - 1], run[|run| - 1];
      ConnsAreConnected(n, init, slot);
      assert run == init + [last];
      ConnectedMore(init, last, slot);
      match last
      case Tick => case Release(_) => case Register(_) => case Lock(_) => case Post(_) => case RunTask(_) =>
      case Disconnect(_) =>
    }
  }

  lemma NotConnectedYet(slot: Slot)
    ensures !Connected([], slot)
  {
  }

  // ----- exactly who is shut down -----

  lemma {:induction false} PrefixRuns(n: nat, run: seq<Step>, d: nat)
    requires Runs(n, run) && d <= |run|
    ensures Runs(n, run[..d])
    decreases |run|
  {
    if d == |run| {
      assert run[..d] == run;
    } else {
      PrefixRuns(n, run[..|run| - 1], d);
      assert run[..|run| - 1][..d] == run[..d];
    }
  }

  /** Step `d` of the run takes the slot's last reference. */
  ghost predicate DiesAt(n: nat, run: seq<Step>, slot: Slot, d: nat)
    requires Runs(n, run)
  {
    && d < |run| && Runs(n, run[..d]) && Runs(n, run[..d + 1])
    && Alive(After(n, run[..d]), slot) && !Alive(After(n, run[..d + 1]), slot)
  }

  lemma DiesAtMore(n: nat, run: seq<Step>, slot: Slot, d: nat)
    requires Runs(n, run) && run != [] && Runs(n, run[..|run| - 1])
    ensures d < |run| - 1 ==> (DiesAt(n, run, slot, d) <==> DiesAt(n, run[..|run| - 1], slot, d))
    ensures d == |run| - 1 ==>
              (DiesAt(n, run, slot, d) <==> Alive(After(n, run[..|run| - 1]), slot) && !Alive(After(n, run), slot))
  {
    var init := run[..|run| - 1];
    if d < |init| {
      assert init[..d] == run[..d] && init[..d + 1] == run[..d + 1];
    } else if d == |init| {
      assert run[..d] == init && run[..d + 1] == run;
    }
  }

  /** The slot has died while its connection existed. */
  ghost predicate DiedConnected(n: nat, run: seq<Step>, slot: Slot)
    requires Runs(n, run)
  {
    exists d :: 0 <= d < |run| && DiesAt(n, run, slot, d) && Connected(run[..d], slot)
  }

  lemma DiedMore(n: nat, run: seq<Step>, slot: Slot)
    requires Runs(n, run) && run != [] && Runs(n, run[..|run| - 1])
    ensures var init := run[..|run| - 1];
      DiedConnected(n, run, slot) <==>
      || DiedConnected(n, init, slot)
      || (Alive(After(n, init), slot) && !Alive(After(n, run), slot) && Connected(init, slot))
  {
    hide Connected, After, Alive, Runs;
    var init := run[..|run| - 1];
    forall d: nat
      ensures d < |init| ==> (DiesAt(n, run, slot, d) <==> DiesAt(n, init, slot, d)) && init[..d] == run[..d]
    {
      DiesAtMore(n, run, slot, d);
    }
    DiesAtMore(n, run, slot, |init|);
    if DiedConnected(n, init, slot) {
      var d :| 0 <= d < |init| && DiesAt(n, init, slot, d) && Connected(init[..d], slot);
      assert DiesAt(n, run, slot, d) && Connected(run[..d], slot);
    }
  }

  /** Over every run: a connection is shut down, and then once, if and only if a step took its slot's
      last reference while the connection, made before, had not died. */
  lemma {:induction false} ShutExactly(n: nat, run: seq<Step>, slot: Slot)
    requires Runs(n, run)
    ensures multiset(After(n, run).shut)[slot] == if DiedConnected(n, run, slot) then 1 else 0
  {
    hide Farewells, Owners, Next, Enabled, DiedConnected, Alive;
    ShutdownOnce(n, run, slot);
    if run == [] {
      NoneDied(n, slot);
    } else {
      AfterMore(n, run);
      var init, step := run[..|run| - 1], run[|run| - 1];
      ShutExactly(n, init, slot);
      ShutByDeath(After(n, init), step, slot);
      ConnsAreConnected(n, init, slot);
      DiedMore(n, run, slot);
    }
  }

  lemma NoneDied(n: nat, slot: Slot)
    ensures !DiedConnected(n, [], slot)
  {
  }

  // ----- an idle connection -----

  predicate Quiet(steps: seq<Step>, slot: Slot) {
    Lock(slot) !in steps && Register(slot) !in steps
  }

  lemma {:induction false} QuietStays(n: nat, run: seq<Step>, quiet: seq<Step>, slot: Slot)
    requires Runs(n, run) && Runs(n, run + quiet) && Quiet(quiet, slot)
    requires !InFlight(After(n, run), slot)
    ensures !InFlight(After(n, run + quiet), slot)
    ensures LastRefresh(run + quiet, slot) == LastRefresh(run, slot)
    ensures Now(run + quiet) == Now(run) + Now(quiet)
  {
    hide Farewells, Owners, Next, Enabled, InFlight;
    if quiet == [] {
      assert run + quiet == run;
    } else {
      var init, step := quiet[..|quiet| - 1], quiet[|quiet| - 1];
      assert (run + quiet)[..|run + quiet| - 1] == run + init;
      assert quiet == init + [step];
      QuietStays(n, run, init, slot);
      QuietStep(After(n, run + init), step, slot);
    }
  }

  lemma QuietStep(st: State, step: Step, slot: Slot)
    requires st.wheel != [] && Enabled(st, step) && !InFlight(st, slot)
    requires step != Lock(slot) && step != Register(slot)
    ensures !InFlight(Next(st, step), slot) && step != RunTask(slot)
  {
    match step
    case Tick =>
    case Release(_) =>
    case Register(_) =>
    case Lock(_) =>
    case Post(_) =>
    case RunTask(_) =>
    case Disconnect(_) =>
  }

  /** A connection that sends nothing more lives through `n - 1` ticks and dies on the `n`-th,
      whatever the other connections do. */
  lemma IdleLifetime(n: nat, run: seq<Step>, quiet: seq<Step>, slot: Slot)
    requires Runs(n, run) && Runs(n, run + quiet) && Quiet(quiet, slot)
    requires LastRefresh(run, slot) == Now(run) && !InFlight(After(n, run), slot)
    ensures Alive(After(n, run + quiet), slot) <==> Now(quiet) < n
  {
    QuietStays(n, run, quiet, slot);
    AliveExactly(n, run + quiet, slot);
  }

  lemma {:induction false} QuietKeeps(run: seq<Step>, quiet: seq<Step>, slot: Slot)
    requires Connected(run, slot) && Disconnect(slot) !in quiet
    ensures Connected(run + quiet, slot)
    decreases |quiet|
  {
    hide Connected;
    if quiet == [] {
      assert run + quiet == run;
    } else {
      var init, step := quiet[..|quiet| - 1], quiet[|quiet| - 1];
      QuietKeeps(run, init, slot);
      ConnectedMore(run + init, step, slot);
      assert quiet == init + [step] && run + quiet == (run + init) + [step];
    }
  }

  /** Unless it is disconnected before, it is shut down, once, on that tick and not earlier. */
  lemma {:induction false} IdleIsShut(n: nat, run: seq<Step>, quiet: seq<Step>, slot: Slot)
    requires Runs(n, run) && Runs(n, run + quiet) && Quiet(quiet, slot)
    requires LastRefresh(run, slot) == Now(run) && !InFlight(After(n, run), slot)
    requires Connected(run, slot) && Disconnect(slot) !in quiet
    ensures multiset(After(n, run + quiet).shut)[slot] == if Now(quiet) >= n then 1 else 0
    decreases |quiet|
  {
    hide Farewells, Owners, Next, Enabled, Alive, Connected, InFlight;
    IdleLifetime(n, run, quiet, slot);
    ShutdownOnce(n, run + quiet, slot);
    if quiet != [] && Now(quiet) >= n {
      var init, step := quiet[..|quiet| - 1], quiet[|quiet| - 1];
      assert quiet == init + [step];
      assert (run + quiet)[..|run + quiet| - 1] == run + init;
      AfterMore(n, run + quiet);
      IdleIsShut(n, run, init, slot);
      IdleLifetime(n, run, init, slot);
      ShutByDeath(After(n, run + init), step, slot);
      QuietKeeps(run, init, slot);
      ConnsAreConnected(n, run + init, slot);
    }
  }
}
