/** The timer: a multimap of deadlines in front of one operating-system timer. The clock is
    an object whose readings never go back. */
module Timers {

  class Clock {
    var time: int

    constructor () {
      time := 0;
    }

    /** `getNowMs`. */
    method Read() returns (now: int)
      modifies this
      ensures now == time >= old(time)
    {
      now :| now >= time;
      time := now;
    }
  }

  class TimerEvent {
    var arriveTime: int
    var interval: int
    var repeated: bool
    var cancelled: bool

    constructor (clock: Clock, interval: int, repeated: bool)
      modifies clock
      ensures this.interval == interval && this.repeated == repeated && !cancelled
      ensures arriveTime == clock.time + interval && clock.time >= old(clock.time)
    {
      var now := clock.Read();
      this.interval, this.repeated, cancelled := interval, repeated, false;
      arriveTime := now + interval;
    }

    method ResetTime(clock: Clock)
      modifies this`arriveTime, this`cancelled, clock
      ensures arriveTime == clock.time + interval && !cancelled && clock.time >= old(clock.time)
    {
      var now := clock.Read();
      arriveTime := now + interval;
      cancelled := false;
    }
  }

  // ----- the multimap -----

  datatype Entry = Entry(key: int, event: TimerEvent)

  predicate Sorted(p: seq<Entry>) {
    forall i, j :: 0 <= i < j < |p| ==> p[i].key <= p[j].key
  }

  predicate Distinct(p: seq<Entry>) {
    forall i, j :: 0 <= i < j < |p| ==> p[i].event != p[j].event
  }

  function Events(p: seq<Entry>): set<TimerEvent> {
    set i | 0 <= i < |p| :: p[i].event
  }

  /** `lower_bound`: the first position whose key is not below `key`. */
  function LowerBound(p: seq<Entry>, key: int): (i: nat)
    ensures i <= |p|
  {
    if p == [] || p[|p| - 1].key < key then |p| else LowerBound(p[..|p| - 1], key)
  }

  /** `upper_bound`: the first position whose key is above `key`. */
  function UpperBound(p: seq<Entry>, key: int): (i: nat)
    ensures i <= |p|
  {
    if p == [] || p[|p| - 1].key <= key then |p| else UpperBound(p[..|p| - 1], key)
  }

  lemma {:induction false} Bounds(p: seq<Entry>, key: int)
    requires Sorted(p)
    ensures forall i :: 0 <= i < |p| ==> (i < LowerBound(p, key) <==> p[i].key < key)
    ensures forall i :: 0 <= i < |p| ==> (i < UpperBound(p, key) <==> p[i].key <= key)
  {
    if p != [] {
      Bounds(p[..|p| - 1], key);
    }
  }

  lemma {:induction false} BoundsOrdered(p: seq<Entry>, key: int)
    ensures LowerBound(p, key) <= UpperBound(p, key)
  {
    if p != [] {
      BoundsOrdered(p[..|p| - 1], key);
    }
  }

  /** `emplace`: behind the entries with the same key. */
  function Insert(p: seq<Entry>, e: Entry): seq<Entry> {
    var i := UpperBound(p, e.key);
    p[..i] + [e] + p[i..]
  }

  function Erase(p: seq<Entry>, i: nat): seq<Entry>
    requires i < |p|
  {
    p[..i] + p[i + 1..]
  }

  function InsertAll(p: seq<Entry>, es: seq<Entry>): seq<Entry> {
    if es == [] then p else Insert(InsertAll(p, es[..|es| - 1]), es[|es| - 1])
  }

  lemma InsertKeeps(p: seq<Entry>, e: Entry)
    requires Sorted(p)
    ensures Sorted(Insert(p, e)) && multiset(Insert(p, e)) == multiset(p) + multiset{e}
    ensures forall x :: x in Insert(p, e) <==> x in p || x == e
  {
    Bounds(p, e.key);
    var i := UpperBound(p, e.key);
    assert p == p[..i] + p[i..];
  }

  /** Equal deadlines keep the order of their adding: the new entry stands behind all that are due no
      later, and in front of all that are due later. */
  lemma InsertsBehind(p: seq<Entry>, e: Entry) returns (i: nat)
    requires Sorted(p)
    ensures i <= |p| && Insert(p, e) == p[..i] + [e] + p[i..]
    ensures (forall j :: 0 <= j < i ==> p[j].key <= e.key) && (forall j :: i <= j < |p| ==> p[j].key > e.key)
  {
    Bounds(p, e.key);
    i := UpperBound(p, e.key);
  }

  lemma {:induction false} InsertAllKeeps(p: seq<Entry>, es: seq<Entry>)
    requires Sorted(p)
    ensures Sorted(InsertAll(p, es)) && multiset(InsertAll(p, es)) == multiset(p) + multiset(es)
  {
    hide Insert, Sorted;
    if es != [] {
      InsertAllKeeps(p, es[..|es| - 1]);
      InsertKeeps(InsertAll(p, es[..|es| - 1]), es[|es| - 1]);
      assert es == es[..|es| - 1] + [es[|es| - 1]];
    }
  }

  // ----- firing -----

  /** How many entries `onTimer` takes off the front: due ones, up to a cancelled one. */
  function DueCount(p: seq<Entry>, now: int, off: set<TimerEvent>): (k: nat)
    ensures k <= |p|
  {
    if p != [] && p[0].key <= now && p[0].event !in off then 1 + DueCount(p[1..], now, off) else 0
  }

  lemma {:induction false} DueCountStops(p: seq<Entry>, now: int, off: set<TimerEvent>)
    ensures forall i :: 0 <= i < DueCount(p, now, off) ==> p[i].key <= now && p[i].event !in off
    ensures var k := DueCount(p, now, off); k < |p| ==> p[k].key > now || p[k].event in off
  {
    if p != [] && p[0].key <= now && p[0].event !in off {
      DueCountStops(p[1..], now, off);
      assert forall i :: 0 < i < |p| ==> p[i] == p[1..][i - 1];
    }
  }

  lemma {:induction false} DueCountIs(p: seq<Entry>, now: int, off: set<TimerEvent>, k: nat)
    requires k <= |p|
    requires forall i :: 0 <= i < k ==> p[i].key <= now && p[i].event !in off
    requires k < |p| ==> p[k].key > now || p[k].event in off
    ensures DueCount(p, now, off) == k
  {
    if k > 0 {
      assert forall i :: 0 <= i < |p[1..]| ==> p[1..][i] == p[i + 1];
      DueCountIs(p[1..], now, off, k - 1);
    }
  }

  /** A due, live event is passed over iff a cancelled due entry stands before it. */
  lemma PassedOver(p: seq<Entry>, now: int, off: set<TimerEvent>, i: nat)
    requires Sorted(p) && i < |p| && p[i].key <= now && p[i].event !in off
    ensures i >= DueCount(p, now, off) <==> exists j :: 0 <= j < i && p[j].event in off
  {
    DueCountStops(p, now, off);
    var k := DueCount(p, now, off);
    if i >= k {
      assert p[k].key <= p[i].key || k == i;
      assert p[k].event in off;
    }
  }

  /** Firing is exact, the due events and no others, iff no due entry is cancelled. */
  lemma FiringExact(p: seq<Entry>, now: int, off: set<TimerEvent>)
    requires Sorted(p)
    ensures (forall i :: 0 <= i < |p| ==> (i < DueCount(p, now, off) <==> p[i].key <= now)) <==>
            (forall i :: 0 <= i < |p| && p[i].key <= now ==> p[i].event !in off)
  {
    DueCountStops(p, now, off);
    forall i | 0 <= i < |p| && p[i].key <= now && p[i].event !in off
      ensures i >= DueCount(p, now, off) <==> exists j :: 0 <= j < i && p[j].event in off
    {
      PassedOver(p, now, off, i);
    }
    if j :| 0 <= j < |p| && p[j].key <= now && p[j].event in off {
      assert j >= DueCount(p, now, off);
    }
  }

  // ----- deleting -----

  predicate IsAt(p: seq<Entry>, event: TimerEvent, key: int, i: nat) {
    i < |p| && p[i] == Entry(key, event)
  }

  /** Where `delTimerEvent` erases: at the event, or else behind all entries with its key. */
  ghost predicate Target(p: seq<Entry>, key: int, event: TimerEvent, at: nat) {
    if exists i :: IsAt(p, event, key, i) then
      IsAt(p, event, key, at) && forall i :: 0 <= i < at ==> p[i] != Entry(key, event)
    else at == UpperBound(p, key)
  }

  function Deleted(p: seq<Entry>, at: nat): seq<Entry> {
    if at < |p| then Erase(p, at) else p
  }

  lemma DeletedKeeps(p: seq<Entry>, at: nat)
    requires Sorted(p)
    ensures Sorted(Deleted(p, at)) && (Distinct(p) ==> Distinct(Deleted(p, at)))
    ensures forall e :: e in Deleted(p, at) ==> e in p && e.event in Events(Deleted(p, at))
    ensures at < |p| && Distinct(p) ==> p[at].event !in Events(Deleted(p, at))
    ensures p != [] && Deleted(p, at) != [] ==> p[0].key <= Deleted(p, at)[0].key
  {
    var q := Deleted(p, at);
    assert forall i :: 0 <= i < |q| ==> q[i] == if i < at then p[i] else p[i + 1];
  }

  /** The entries of other events. */
  function Without(p: seq<Entry>, event: TimerEvent): seq<Entry> {
    if p == [] then []
    else Without(p[..|p| - 1], event) + if p[|p| - 1].event == event then [] else [p[|p| - 1]]
  }

  lemma {:induction false} WithoutAbsent(p: seq<Entry>, event: TimerEvent)
    requires event !in Events(p)
    ensures Without(p, event) == p
  {
    if p != [] {
      assert p[|p| - 1].event in Events(p);
      var init := p[..|p| - 1];
      assert p == init + [p[|p| - 1]];
      forall e | e in Events(init)
        ensures e in Events(p)
      {
        var i :| 0 <= i < |init| && init[i].event == e;
        assert p[i].event == e;
      }
      WithoutAbsent(init, event);
    }
  }

  lemma {:induction false} WithoutPresent(p: seq<Entry>, event: TimerEvent, at: nat)
    requires Distinct(p) && at < |p| && p[at].event == event
    ensures Without(p, event) == Erase(p, at)
  {
    var init := p[..|p| - 1];
    if at == |p| - 1 {
      WithoutAbsent(init, event);
    } else {
      WithoutPresent(init, event, at);
      assert Erase(p, at) == Erase(init, at) + [p[|p| - 1]];
    }
  }

  lemma TargetPresent(p: seq<Entry>, key: int, event: TimerEvent, at: nat)
    requires Target(p, key, event, at) && event in Events(p)
    requires forall e :: e in p && e.event == event ==> e.key == key
    ensures at < |p| && p[at].event == event
  {
    var i :| 0 <= i < |p| && p[i].event == event;
    assert p[i] in p && IsAt(p, event, key, i);
  }

  /** Deleting takes out the event and nothing else iff it was pending or no later deadline
      is; otherwise the next later deadline is lost. */
  lemma DeletionExact(p: seq<Entry>, key: int, event: TimerEvent, at: nat)
    requires Sorted(p) && Distinct(p) && Target(p, key, event, at)
    requires forall i :: 0 <= i < |p| && p[i].event == event ==> p[i].key == key
    ensures Deleted(p, at) == Without(p, event) <==>
            event in Events(p) || forall i :: 0 <= i < |p| ==> p[i].key <= key
  {
    if event in Events(p) {
      var i :| 0 <= i < |p| && p[i].event == event;
      assert IsAt(p, event, key, i);
      WithoutPresent(p, event, at);
    } else {
      assert forall i :: 0 <= i < |p| ==> p[i].event in Events(p);
      WithoutAbsent(p, event);
      Bounds(p, key);
    }
  }

  // ----- the sequence of fired events -----

  function EventsOf(p: seq<Entry>): (s: seq<TimerEvent>)
    ensures |s| == |p|
  {
    if p == [] then [] else EventsOf(p[..|p| - 1]) + [p[|p| - 1].event]
  }

  /** The events with `m_is_repeated`, in order. */
  function Repeated(s: seq<TimerEvent>): seq<TimerEvent>
    reads (set e | e in s)`repeated
  {
    if s == [] then []
    else Repeated(s[..|s| - 1]) + if s[|s| - 1].repeated then [s[|s| - 1]] else []
  }

  predicate NoRepeats(s: seq<TimerEvent>) {
    forall i, j :: 0 <= i < j < |s| ==> s[i] != s[j]
  }

  lemma {:induction false} EventsOfAt(p: seq<Entry>)
    ensures forall i :: 0 <= i < |p| ==> EventsOf(p)[i] == p[i].event
  {
    if p != [] {
      EventsOfAt(p[..|p| - 1]);
    }
  }

  lemma EmptyCases(p: seq<Entry>)
    ensures InsertAll(p, []) == p && EventsOf([]) == [] && Repeated([]) == []
  {
  }

  lemma RepeatedMore(s: seq<TimerEvent>, i: nat)
    requires i < |s|
    ensures Repeated(s[..i + 1]) == Repeated(s[..i]) + if s[i].repeated then [s[i]] else []
  {
    assert s[..i + 1][..i] == s[..i];
  }

  lemma InsertAllMore(p: seq<Entry>, es: seq<Entry>, e: Entry)
    ensures InsertAll(p, es + [e]) == Insert(InsertAll(p, es), e)
    ensures EventsOf(es + [e]) == EventsOf(es) + [e.event]
  {
    assert (es + [e])[..|es|] == es;
  }

  lemma InsertEvents(p: seq<Entry>, e: Entry)
    ensures Events(Insert(p, e)) == Events(p) + {e.event}
  {
    var i, q := UpperBound(p, e.key), Insert(p, e);
    assert q[i] == e;
    forall x | x in Events(p)
      ensures x in Events(q)
    {
      var j :| 0 <= j < |p| && p[j].event == x;
      assert q[if j < i then j else j + 1] == p[j];
    }
    forall x | x in Events(q)
      ensures x in Events(p) + {e.event}
    {
      var j :| 0 <= j < |q| && q[j].event == x;
      assert q[j] == if j < i then p[j] else if j == i then e else p[j - 1];
    }
  }

  lemma FiredPending(p: seq<Entry>, k: nat)
    requires k <= |p|
    ensures forall e :: e in EventsOf(p[..k]) ==> e in Events(p)
    ensures Sorted(p) ==> Sorted(p[k..])
    ensures Distinct(p) ==> NoRepeats(EventsOf(p[..k])) && Distinct(p[k..])
    ensures forall e :: e in p[k..] ==> e in p && e.event in Events(p[k..])
    ensures Distinct(p) ==> forall e :: e in EventsOf(p[..k]) ==> e !in Events(p[k..])
  {
    EventsOfAt(p[..k]);
    var q := p[k..];
    assert forall i :: 0 <= i < |q| ==> q[i] == p[k + i];
  }

  // ----- the operating-system timer -----

  /** Disarmed, armed for an instant, or expired and waiting to be read. */
  datatype Fd = Off | At(deadline: int) | Expired

  /** What `resetArriveTime` leaves behind when the clock reads `now`. */
  function Rearm(fd: Fd, p: seq<Entry>, now: int): Fd {
    if p == [] || p[0].key < now then fd
    else if p[0].key == now then Off      // a zero `it_value` disarms
    else At(p[0].key)
  }

  /** No deadline can be slept through. */
  predicate OnGuard(fd: Fd, p: seq<Entry>) {
    p == [] || fd.Expired? || (fd.At? && fd.deadline <= p[0].key)
  }

  /** Re-arming makes the timer keep guard iff the first deadline is still to come, or is
      already past but was guarded before. */
  lemma RearmGuards(fd: Fd, p: seq<Entry>, now: int)
    ensures OnGuard(Rearm(fd, p, now), p) <==>
            p == [] || now < p[0].key || (now > p[0].key && OnGuard(fd, p))
    ensures p != [] && now < p[0].key ==> Rearm(fd, p, now).At? && Rearm(fd, p, now).deadline == p[0].key
    ensures p == [] || now > p[0].key ==> Rearm(fd, p, now) == fd
  {
  }

  // ----- whole runs -----

  datatype Snapshot = Snapshot(fd: Fd, pending: seq<Entry>)

  /** The calls, with the clock readings they make; `off` are the events cancelled at the
      time, `again` the new entries of the repeated events. */
  datatype Op =
    | Add(entry: Entry, now: int)
    | Delete(at: nat)
    | Expire
    | Fire(now: int, off: set<TimerEvent>, again: seq<Entry>, later: int)

  function Apply(s: Snapshot, op: Op): Snapshot {
    match op
    case Add(e, now) =>
      var q := Insert(s.pending, e);
      Snapshot(if s.pending == [] || e.key < s.pending[0].key then Rearm(s.fd, q, now) else s.fd, q)
    case Delete(at) => s.(pending := Deleted(s.pending, at))
    case Expire => s.(fd := Expired)
    case Fire(now, off, again, later) =>
      var q := InsertAll(s.pending[DueCount(s.pending, now, off)..], again);
      Snapshot(Rearm(if s.fd.Expired? then Off else s.fd, q, later), q)
  }

  /** The reading that arms comes before the first deadline. */
  predicate InTime(s: Snapshot, op: Op) {
    match op
    case Add(e, now) => s.pending == [] || e.key < s.pending[0].key ==> now < e.key
    case Fire(_, _, _, later) => Apply(s, op).pending == [] || later < Apply(s, op).pending[0].key
    case _ => true
  }

  predicate Wakeful(s: Snapshot) {
    Sorted(s.pending) && OnGuard(s.fd, s.pending)
  }

  lemma SortedStays(s: Snapshot, op: Op)
    requires Sorted(s.pending)
    ensures Sorted(Apply(s, op).pending)
  {
    match op
    case Add(e, _) => InsertKeeps(s.pending, e);
    case Delete(at) => DeletedKeeps(s.pending, at);
    case Expire =>
    case Fire(now, off, again, _) =>
      FiredPending(s.pending, DueCount(s.pending, now, off));
      InsertAllKeeps(s.pending[DueCount(s.pending, now, off)..], again);
  }

  /** Adding behind the head and deleting need not re-arm: they keep guard anyway. */
  lemma StaysWakeful(s: Snapshot, op: Op)
    requires Wakeful(s) && InTime(s, op)
    ensures Wakeful(Apply(s, op))
  {
    SortedStays(s, op);
    match op
    case Add(e, _) => Bounds(s.pending, e.key);
    case Delete(at) => DeletedKeeps(s.pending, at);
    case Expire =>
    case Fire(_, _, _, _) =>
  }

  /** After the timer has gone off it guards the next deadline iff it was re-armed in time. */
  lemma FireGuards(s: Snapshot, op: Op)
    requires s.fd.Expired? && op.Fire?
    ensures var r := Apply(s, op); OnGuard(r.fd, r.pending) <==> InTime(s, op)
  {
  }

  /** An event that becomes the head is guarded iff the timer was armed in time, or was
      already set to go off no later. */
  lemma AddGuards(s: Snapshot, e: Entry, now: int)
    requires Sorted(s.pending) && (s.pending == [] || e.key < s.pending[0].key)
    ensures var r := Apply(s, Add(e, now));
            OnGuard(r.fd, r.pending) <==> now < e.key || (now > e.key && OnGuard(s.fd, r.pending))
  {
    Bounds(s.pending, e.key);
  }

  function Final(s: Snapshot, ops: seq<Op>): Snapshot {
    if ops == [] then s else Apply(Final(s, ops[..|ops| - 1]), ops[|ops| - 1])
  }

  /** No deadline is missed in any run whose arming readings come in time, although only
      some of the calls arm the timer. */
  lemma {:induction false} NoMissedDeadline(s: Snapshot, ops: seq<Op>)
    requires Wakeful(s)
    requires forall i :: 0 <= i < |ops| ==> InTime(Final(s, ops[..i]), ops[i])
    ensures Wakeful(Final(s, ops))
  {
    if ops != [] {
      var init := ops[..|ops| - 1];
      forall i | 0 <= i < |init|
        ensures InTime(Final(s, init[..i]), init[i])
      {
        assert init[..i] == ops[..i];
      }
      NoMissedDeadline(s, init);
      StaysWakeful(Final(s, init), ops[|ops| - 1]);
    }
  }

  /** Some event has been pending with that deadline. */
  ghost predicate WasDeadline(s: Snapshot, ops: seq<Op>, deadline: int) {
    exists i, j :: && 0 <= i <= |ops| && 0 <= j < |Final(s, ops[..i]).pending|
                   && Final(s, ops[..i]).pending[j].key == deadline
  }

  /** The alarm is never set for anything but the deadline of an event, in any run at all. */
  lemma {:induction false} AlarmIsADeadline(s: Snapshot, ops: seq<Op>)
    requires s.fd.At? ==> WasDeadline(s, [], s.fd.deadline)
    ensures Final(s, ops).fd.At? ==> WasDeadline(s, ops, Final(s, ops).fd.deadline)
  {
    hide Insert, InsertAll, DueCount, Deleted;
    if ops != [] {
      var init, op := ops[..|ops| - 1], ops[|ops| - 1];
      AlarmIsADeadline(s, init);
      var t, r := Final(s, init), Final(s, ops);
      if r.fd.At? {
        if t.fd.At? && r.fd == t.fd {
          var i, j :| && 0 <= i <= |init| && 0 <= j < |Final(s, init[..i]).pending|
                      && Final(s, init[..i]).pending[j].key == t.fd.deadline;
          assert ops[..i] == init[..i];
        } else {
          ArmedForHead(t, op);
          assert ops[..|ops|] == ops && r.pending[0].key == r.fd.deadline;
        }
      }
    } else {
      assert ops == [];
    }
  }

  lemma ArmedForHead(s: Snapshot, op: Op)
    requires Apply(s, op).fd.At? && Apply(s, op).fd != s.fd
    ensures var r := Apply(s, op); r.pending != [] && r.fd.deadline == r.pending[0].key
  {
  }

  /** A guarded deadline is met: the alarm can ring, and the call that it makes, once the deadline has
      come, fires the head and with it exactly the live entries due in front of the first that is not. */
  lemma HeadFires(s: Snapshot, now: int, off: set<TimerEvent>, again: seq<Entry>, later: int) returns (k: nat)
    requires s.fd.At? && s.pending != [] && s.pending[0].key <= now && s.pending[0].event !in off
    ensures Enabled(s, Expire) && Enabled(Apply(s, Expire), Fire(now, off, again, later))
    ensures 1 <= k <= |s.pending|
    ensures Final(s, [Expire, Fire(now, off, again, later)]).pending == InsertAll(s.pending[k..], again)
    ensures forall i :: 0 <= i < k ==> s.pending[i].key <= now && s.pending[i].event !in off
    ensures k < |s.pending| ==> s.pending[k].key > now || s.pending[k].event in off
  {
    k := DueCount(s.pending, now, off);
    DueCountStops(s.pending, now, off);
    var fire := Fire(now, off, again, later);
    assert [Expire, fire][..1] == [Expire] && [Expire][..0] == [];
    assert Final(s, [Expire]) == Apply(s, Expire);
  }

  // ----- a timer that has gone dead -----

  /** What the kernel and the reactor allow: only an armed timer expires, and `onTimer` runs only
      when it has. */
  predicate Enabled(s: Snapshot, op: Op) {
    match op
    case Expire => s.fd.At?
    case Fire(_, _, _, _) => s.fd.Expired?
    case _ => true
  }

  /** The one call that arms a disarmed timer: adding a new head before its deadline. */
  predicate Revives(s: Snapshot, op: Op) {
    op.Add? && (s.pending == [] || op.entry.key < s.pending[0].key) && op.now < op.entry.key
  }

  lemma OffStays(s: Snapshot, op: Op)
    requires s.fd.Off? && Sorted(s.pending) && Enabled(s, op)
    ensures Apply(s, op).fd.Off? <==> !Revives(s, op)
  {
    match op
    case Add(e, _) => Bounds(s.pending, e.key);
    case Delete(_) =>
    case Expire =>
    case Fire(_, _, _, _) =>
  }

  /** A run in which nothing revives the timer or deletes the entry `x`. */
  ghost predicate Starves(s: Snapshot, ops: seq<Op>, x: Entry) {
    ops == [] ||
    (var t, op := Final(s, ops[..|ops| - 1]), ops[|ops| - 1];
     && Starves(s, ops[..|ops| - 1], x)
     && Enabled(t, op) && !Revives(t, op)
     && (op.Delete? && op.at < |t.pending| ==> t.pending[op.at] != x))
  }

  /** Once disarmed with something pending, the timer is dead until a new head is added in time:
      nothing fires, and every event stays pending until it is deleted, however late it gets. */
  lemma {:induction false} DeadTimer(s: Snapshot, ops: seq<Op>, x: Entry)
    requires s.fd.Off? && Sorted(s.pending) && x in s.pending && Starves(s, ops, x)
    ensures var r := Final(s, ops); r.fd.Off? && Sorted(r.pending) && x in r.pending
    ensures forall i :: 0 <= i < |ops| ==> !ops[i].Fire?
  {
    hide Apply, Sorted;
    if ops != [] {
      var init, op := ops[..|ops| - 1], ops[|ops| - 1];
      DeadTimer(s, init, x);
      var t := Final(s, init);
      OffStays(t, op);
      SortedStays(t, op);
      EntryStays(t, op, x);
    }
  }

  lemma EntryStays(s: Snapshot, op: Op, x: Entry)
    requires Sorted(s.pending) && x in s.pending && !op.Fire?
    requires op.Delete? && op.at < |s.pending| ==> s.pending[op.at] != x
    ensures x in Apply(s, op).pending
  {
    match op
    case Add(e, _) => InsertKeeps(s.pending, e);
    case Delete(at) =>
      if at < |s.pending| {
        assert s.pending == s.pending[..at] + [s.pending[at]] + s.pending[at + 1..];
      }
    case Expire =>
  }

  /** An event added as the head in the very millisecond of its deadline disarms the timer, and it
      and all others are never fired until a new head is added in time. */
  lemma DueNowIsLost(s: Snapshot, e: Entry, ops: seq<Op>, x: Entry)
    requires Sorted(s.pending) && (s.pending == [] || e.key < s.pending[0].key) && x in s.pending + [e]
    requires Starves(Apply(s, Add(e, e.key)), ops, x)
    ensures var r := Final(Apply(s, Add(e, e.key)), ops); r.fd.Off? && x in r.pending
    ensures forall i :: 0 <= i < |ops| ==> !ops[i].Fire?
  {
    Bounds(s.pending, e.key);
    InsertKeeps(s.pending, e);
    DeadTimer(Apply(s, Add(e, e.key)), ops, x);
  }

  /** So does a firing that re-arms when the next head is already due: exactly then. */
  lemma OverdueIsLost(s: Snapshot, op: Op, ops: seq<Op>, x: Entry)
    requires Sorted(s.pending) && s.fd.Expired? && op.Fire? && x in Apply(s, op).pending
    ensures !InTime(s, op) <==> Apply(s, op).fd.Off?
    ensures !InTime(s, op) && Starves(Apply(s, op), ops, x) ==>
              && Final(Apply(s, op), ops).fd.Off? && x in Final(Apply(s, op), ops).pending
              && forall i :: 0 <= i < |ops| ==> !ops[i].Fire?
  {
    SortedStays(s, op);
    if !InTime(s, op) && Starves(Apply(s, op), ops, x) {
      DeadTimer(Apply(s, op), ops, x);
    }
  }

  class Timer {
    const clock: Clock
    var fd: Fd
    var pending: seq<Entry>

    constructor (clock: Clock)
      ensures this.clock == clock && Snap() == Snapshot(Off, []) && Disciplined()
    {
      this.clock := clock;
      fd, pending := Off, [];
    }

    /** Keys are the events' deadlines; no event pends twice or cancelled. */
    ghost predicate Disciplined()
      reads this`pending, Events(pending)
    {
      && Sorted(pending) && Distinct(pending)
      && forall e :: e in pending ==> e.event in Events(pending)
                                      && e.key == e.event.arriveTime && !e.event.cancelled
    }

    /** The pending events that are cancelled. */
    ghost function Cancelled(): set<TimerEvent>
      reads this`pending, Events(pending)`cancelled
    {
      set e | e in Events(pending) && e.cancelled
    }

    function Snap(): Snapshot
      reads this
    {
      Snapshot(fd, pending)
    }

    method ResetArriveTime()
      modifies this`fd, clock
      ensures fd == Rearm(old(fd), pending, clock.time) && clock.time >= old(clock.time)
    {
      if |pending| == 0 {
        return;
      }
      var now := clock.Read();
      var first := pending[0].key;
      if first < now {
        return;
      }
      var interval := first - now;
      fd := if interval == 0 then Off else At(now + interval);
    }

    method Emplace(event: TimerEvent)
      requires Sorted(pending)
      modifies this`pending
      ensures pending == Insert(old(pending), Entry(event.arriveTime, event)) && Sorted(pending)
      ensures old(Disciplined()) && event !in old(Events(pending)) && !event.cancelled ==> Disciplined()
    {
      var entry := Entry(event.arriveTime, event);
      InsertKeeps(pending, entry);
      InsertEvents(pending, entry);
      if Distinct(pending) && event !in Events(pending) {
        InsertFresh(pending, entry);
      }
      hide Insert, Sorted, Distinct, Events;
      pending := Insert(pending, entry);
    }

    method AddTimerEvent(event: TimerEvent, needReset: bool)
      requires Sorted(pending)
      modifies this`pending, this`fd, clock
      ensures pending == Insert(old(pending), Entry(event.arriveTime, event)) && Sorted(pending)
      ensures clock.time >= old(clock.time)
      ensures fd == if needReset && (old(pending) == [] || event.arriveTime < old(pending[0].event.arriveTime))
                    then Rearm(old(fd), pending, clock.time) else old(fd)
      ensures old(Disciplined()) && event !in old(Events(pending)) && !event.cancelled ==> Disciplined()
      ensures old(Disciplined()) && needReset ==>
                Snap() == Apply(old(Snap()), Add(Entry(event.arriveTime, event), clock.time))
    {
      hide Rearm, Insert, Sorted;
      var isReset := false;
      if |pending| == 0 {
        isReset := true;
      } else if event.arriveTime < pending[0].event.arriveTime {
        isReset := true;
      }
      Emplace(event);
      if isReset && needReset {
        ResetArriveTime();
      }
    }

    /** The search of `delTimerEvent` through the entries with the event's key. */
    method Find(event: TimerEvent, key: int) returns (it: nat)
      requires Sorted(pending)
      ensures it <= |pending| && Target(pending, key, event, it)
    {
      Bounds(pending, key);
      BoundsOrdered(pending, key);
      hide Sorted;
      var end := UpperBound(pending, key);
      it := LowerBound(pending, key);
      while it != end && pending[it].event != event
        invariant LowerBound(pending, key) <= it <= end
        invariant forall i :: LowerBound(pending, key) <= i < it ==> pending[i].event != event
        decreases end - it
      {
        it := it + 1;
      }
      assert it != end ==> IsAt(pending, event, key, it);
    }

    method DelTimerEvent(event: TimerEvent)
      requires Sorted(pending)
      modifies this`pending, event`cancelled
      ensures event.cancelled
      ensures exists at: nat :: Target(old(pending), event.arriveTime, event, at)
                                && Snap() == Apply(old(Snap()), Delete(at))
      ensures Sorted(pending)
      ensures old(Disciplined()) && event in old(Events(pending)) ==> Disciplined() && event !in Events(pending)
    {
      hide Target, Sorted, Distinct;
      event.cancelled := true;
      var it := Find(event, event.arriveTime);
      DeletedKeeps(pending, it);
      ghost var p := pending;
      if it != |pending| {
        pending := Erase(pending, it);
      }
      if old(Disciplined()) && event in Events(p) {
        TargetPresent(p, event.arriveTime, event, it);
        assert forall e :: e in pending ==> e in p && e.event != event;
      }
    }

    /** Waiting for the deadline: the operating system makes the descriptor readable. */
    method Expire()
      requires fd.At? && fd.deadline <= clock.time
      modifies this`fd
      ensures Snap() == Apply(old(Snap()), Op.Expire)
    {
      fd := Fd.Expired;
    }

    /** The first loop of `onTimer`: the entries that fire. */
    method Collect(now: int) returns (k: nat, fired: seq<TimerEvent>)
      ensures k == DueCount(pending, now, Cancelled()) && fired == EventsOf(pending[..k])
    {
      k, fired := 0, [];
      while k < |pending| && pending[k].key <= now && !pending[k].event.cancelled
        invariant k <= |pending| && fired == EventsOf(pending[..k])
        invariant forall i :: 0 <= i < k ==> pending[i].key <= now && pending[i].event !in Cancelled()
      {
        assert pending[..k + 1][..k] == pending[..k];
        assert pending[k].event in Events(pending);
        fired := fired + [pending[k].event];
        k := k + 1;
      }
      assert k < |pending| ==> pending[k].event in Events(pending);
      DueCountIs(pending, now, Cancelled(), k);
    }

    /** The due entries leave the map. */
    method TakeDue(now: int) returns (fired: seq<TimerEvent>)
      requires Sorted(pending)
      modifies this`pending
      ensures var k := DueCount(old(pending), now, old(Cancelled()));
              fired == EventsOf(old(pending)[..k]) && pending == old(pending)[k..]
      ensures Sorted(pending) && (forall e :: e in fired ==> e in old(Events(pending)))
      ensures old(Disciplined()) ==>
                Disciplined() && NoRepeats(fired) && forall e :: e in fired ==> e !in Events(pending)
    {
      hide DueCount;
      var k;
      k, fired := Collect(now);
      FiredPending(pending, k);
      hide Sorted, Distinct, EventsOf, Events, NoRepeats, Cancelled;
      pending := pending[k..];
    }

    method RequeueOne(e: TimerEvent)
      requires Sorted(pending)
      modifies this`pending, this`fd, clock, e`arriveTime, e`cancelled
      ensures clock.time >= old(clock.time) && fd == old(fd) && Sorted(pending)
      ensures pending == Insert(old(pending), Entry(e.arriveTime, e))
      ensures Events(pending) == old(Events(pending)) + {e}
      ensures old(clock.time) <= e.arriveTime - e.interval <= clock.time
      ensures old(Disciplined()) && e !in old(Events(pending)) ==> Disciplined()
    {
      hide Insert, Sorted, Distinct, Events;
      e.ResetTime(clock);
      InsertEvents(pending, Entry(e.arriveTime, e));
      assert old(Disciplined()) && e !in old(Events(pending)) ==> Disciplined();
      AddTimerEvent(e, false);
    }

    /** The second loop: repeated events get a new deadline and go back in. */
    method Requeue(fired: seq<TimerEvent>) returns (ghost again: seq<Entry>)
      requires Sorted(pending)
      modifies this`pending, this`fd, clock, (set e | e in fired)`arriveTime, (set e | e in fired)`cancelled
      ensures clock.time >= old(clock.time) && fd == old(fd) && Sorted(pending)
      ensures pending == InsertAll(old(pending), again) && EventsOf(again) == Repeated(fired)
      ensures forall i :: 0 <= i < |again| ==>
                old(clock.time) <= again[i].key - again[i].event.interval <= clock.time
      ensures old(Disciplined()) && NoRepeats(fired) && (forall e :: e in fired ==> e !in old(Events(pending)))
              ==> Disciplined()
    {
      hide Insert, InsertAll, Sorted, Distinct, Disciplined, EventsOf, Repeated, Events;
      again := [];
      ghost var rest := pending;
      EmptyCases(rest);
      ghost var fine := Disciplined() && NoRepeats(fired) && forall e :: e in fired ==> e !in Events(pending);
      for i := 0 to |fired|
        invariant clock.time >= old(clock.time) && fd == old(fd) && Sorted(pending)
        invariant pending == InsertAll(rest, again) && EventsOf(again) == Repeated(fired[..i])
        invariant forall j :: 0 <= j < |again| ==>
                    old(clock.time) <= again[j].key - again[j].event.interval <= clock.time
        invariant fine ==> Disciplined() && forall j :: i <= j < |fired| ==> fired[j] !in Events(pending)
      {
        RepeatedMore(fired, i);
        var e := fired[i];
        if e.repeated {
          RequeueOne(e);
          ghost var entry := Entry(e.arriveTime, e);
          InsertAllMore(rest, again, entry);
          again := again + [entry];
        }
      }
      assert fired[..|fired|] == fired;
    }

    /** `onTimer` up to the re-arming. */
    method FireDue() returns (fired: seq<TimerEvent>, ghost now: int, ghost again: seq<Entry>)
      requires Sorted(pending)
      modifies this, clock, Events(pending)`arriveTime, Events(pending)`cancelled
      ensures old(clock.time) <= now <= clock.time
      ensures var k := DueCount(old(pending), now, old(Cancelled()));
              && fired == EventsOf(old(pending)[..k])
              && pending == InsertAll(old(pending)[k..], again)
      ensures EventsOf(again) == Repeated(fired)
      ensures forall i :: 0 <= i < |again| ==> now <= again[i].key - again[i].event.interval <= clock.time
      ensures Sorted(pending) && (old(Disciplined()) ==> Disciplined())
      ensures fd == if old(fd).Expired? then Off else old(fd)
    {
      hide Sorted, Distinct, Insert, InsertAll, DueCount, EventsOf, Repeated, NoRepeats;
      if fd.Expired? {
        fd := Off;
      }
      var reading := clock.Read();
      now := reading;
      assert Cancelled() == old(Cancelled());
      hide Events;
      fired := TakeDue(reading);
      again := Requeue(fired);
    }

    /** Runs when the timer descriptor becomes readable; returns the tasks it then runs.
        `now` is the reading that decides, `again` the entries of the repeated events. */
    method OnTimer() returns (fired: seq<TimerEvent>, ghost now: int, ghost again: seq<Entry>)
      requires Sorted(pending)
      modifies this, clock, Events(pending)`arriveTime, Events(pending)`cancelled
      ensures old(clock.time) <= now <= clock.time
      ensures fired == EventsOf(old(pending)[..DueCount(old(pending), now, old(Cancelled()))])
      ensures Snap() == Apply(old(Snap()), Fire(now, old(Cancelled()), again, clock.time))
      ensures EventsOf(again) == Repeated(fired)
      ensures forall i :: 0 <= i < |again| ==> now <= again[i].key - again[i].event.interval <= clock.time
      ensures Sorted(pending) && (old(Disciplined()) ==> Disciplined())
    {
      hide Sorted, Distinct, Insert, InsertAll, DueCount, EventsOf, Repeated, Rearm, Cancelled, Events;
      fired, now, again := FireDue();
      ResetArriveTime();
    }
  }

  lemma InsertFresh(p: seq<Entry>, e: Entry)
    requires Sorted(p) && Distinct(p) && e.event !in Events(p)
    ensures Distinct(Insert(p, e))
  {
    assert forall i :: 0 <= i < |p| ==> p[i].event in Events(p);
  }
}
