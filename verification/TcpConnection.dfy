/** One connection: read what the socket gives, execute every complete package,
    write what the socket takes.  The class carries, as ghost history, everything received,
    delivered and encoded so far; `Valid` says that no byte and no message is lost or made up. */
module TcpConnections {
  import opened Bytes
  import opened Streams
  import opened RpcFrame
  import opened RpcCodec
  import opened RpcDispatch
  import opened TcpBuffers

  datatype State = NotConnected | Connected | HalfClosing | Closed
  datatype ConnectionType = ServerConnection | ClientConnection

  /** One read: the space it was offered and the bytes it got. */
  datatype Read = Got(space: nat, got: Bytes)

  /** One write that returned: the bytes it was offered and how many of them it took. */
  datatype Put = Put(offered: Bytes, taken: nat)

  /** What writes leave of the bytes to send. */
  function Left(bytes: Bytes, puts: seq<Put>): Bytes {
    if puts == [] then bytes
    else
      var rest, n := Left(bytes, puts[..|puts| - 1]), puts[|puts| - 1].taken;
      if n <= |rest| then rest[n..] else []
  }

  /** Every write was offered all that was left, and something was. */
  predicate OfferedAll(bytes: Bytes, puts: seq<Put>) {
    forall i :: 0 <= i < |puts| ==>
      puts[i].offered == Left(bytes, puts[..i]) != [] && puts[i].taken <= |puts[i].offered|
  }

  /** Writes that were offered everything each time have sent `done` and left `left`. */
  ghost predicate Written(bytes: Bytes, puts: seq<Put>, done: Bytes, left: Bytes) {
    OfferedAll(bytes, puts) && left == Left(bytes, puts) && done + left == bytes
  }

  lemma NothingPut(bytes: Bytes)
    ensures Written(bytes, [], [], bytes)
  {
  }

  lemma PutMore(bytes: Bytes, puts: seq<Put>, done: Bytes, left: Bytes, taken: nat)
    requires Written(bytes, puts, done, left) && left != [] && taken <= |left|
    ensures Written(bytes, puts + [Put(left, taken)], done + left[..taken], left[taken..])
  {
    var more := puts + [Put(left, taken)];
    assert more[..|puts|] == puts;
    forall i | 0 <= i < |more|
      ensures more[i].offered == Left(bytes, more[..i]) != [] && more[i].taken <= |more[i].offered|
    {
      if i < |puts| {
        assert more[..i] == puts[..i];
      }
    }
    assert (done + left[..taken]) + left[taken..] == done + left;
  }

  /** The same with the records of a connection that wrote before. */
  lemma WrittenMore(bytes: Bytes, puts0: seq<Put>, sent0: Bytes, puts: seq<Put>, sent: Bytes, left: Bytes, taken: nat)
    requires puts0 <= puts && sent0 <= sent && Written(bytes, puts[|puts0|..], sent[|sent0|..], left)
    requires left != [] && taken <= |left|
    ensures var p, s := puts + [Put(left, taken)], sent + left[..taken];
      && puts0 <= p && sent0 <= s && Written(bytes, p[|puts0|..], s[|sent0|..], left[taken..])
      && s + left[taken..] == sent + left
  {
    hide Written;
    PutMore(bytes, puts[|puts0|..], sent[|sent0|..], left, taken);
    assert (puts + [Put(left, taken)])[|puts0|..] == puts[|puts0|..] + [Put(left, taken)];
    assert (sent + left[..taken])[|sent0|..] == sent[|sent0|..] + left[..taken];
    assert (sent + left[..taken]) + left[taken..] == sent + left;
  }

  lemma WrittenNone(bytes: Bytes, puts: seq<Put>, sent: Bytes)
    ensures Written(bytes, puts[|puts|..], sent[|sent|..], bytes)
  {
    NothingPut(bytes);
    assert puts[|puts|..] == [] && sent[|sent|..] == [];
  }

  predicate Fills(r: Read) {
    |r.got| == r.space
  }

  /** The last read there was left no space. */
  predicate LastFilled(log: seq<Read>) {
    log != [] && Fills(log[|log| - 1])
  }

  /** All bytes of the reads. */
  function Gots(log: seq<Read>): Bytes {
    if log == [] then [] else Gots(log[..|log| - 1]) + log[|log| - 1].got
  }

  /** The bytes of the reads behind the last one that left space: they wait for the next read. */
  function Behind(log: seq<Read>): Bytes {
    if !LastFilled(log) then [] else Behind(log[..|log| - 1]) + log[|log| - 1].got
  }

  /** What each turn of the loop had read when it went on to execute: the reads up to one that left space. */
  function Turns(log: seq<Read>): seq<Bytes> {
    if log == [] then []
    else
      var init, last := log[..|log| - 1], log[|log| - 1];
      if Fills(last) then Turns(init) else Turns(init) + [Behind(init) + last.got]
  }

  /** The bytes of the turns, and those that wait, are all bytes read. */
  lemma {:induction false} TurnsAccount(log: seq<Read>)
    ensures Flatten(Turns(log)) + Behind(log) == Gots(log)
  {
    hide Flatten, Fills;
    if log == [] {
      NothingFlat();
    } else {
      var init, last := log[..|log| - 1], log[|log| - 1];
      TurnsAccount(init);
      if !Fills(last) {
        FlattenAppend(Turns(init), Behind(init) + last.got);
      }
      Associate(Flatten(Turns(init)), Behind(init), last.got);
    }
  }

  lemma NothingFlat()
    ensures Flatten([]) == []
  {
  }

  lemma {:induction false} GotsAppend(a: seq<Read>, b: seq<Read>)
    ensures Gots(a + b) == Gots(a) + Gots(b)
    decreases |b|
  {
    if b == [] {
      assert a + b == a;
    } else {
      var init, last := b[..|b| - 1], b[|b| - 1];
      GotsAppend(a, init);
      assert (a + b)[..|a + b| - 1] == a + init;
      assert (Gots(a) + Gots(init)) + last.got == Gots(a) + (Gots(init) + last.got);
    }
  }

  predicate AllFill(log: seq<Read>) {
    forall i :: 0 <= i < |log| ==> Fills(log[i])
  }

  /** Reads that fill their space begin no turn and end none. */
  lemma {:induction false} FilledWait(log: seq<Read>, made: seq<Read>)
    requires AllFill(made)
    ensures Turns(log + made) == Turns(log) && Behind(log + made) == Behind(log) + Gots(made)
    decreases |made|
  {
    if made == [] {
      assert log + made == log;
    } else {
      var init, last := made[..|made| - 1], made[|made| - 1];
      FilledWait(log, init);
      assert (log + made)[..|log + made| - 1] == log + init;
      assert (Behind(log) + Gots(init)) + last.got == Behind(log) + (Gots(init) + last.got);
    }
  }

  /** A read that leaves space ends a turn. */
  lemma TurnEnds(log: seq<Read>, made: seq<Read>)
    requires made != [] && AllFill(made[..|made| - 1]) && !LastFilled(made) && Behind(log) == []
    ensures Turns(log + made) == Turns(log) + [Gots(made)] && Behind(log + made) == []
  {
    var init, last := made[..|made| - 1], made[|made| - 1];
    FilledWait(log, init);
    assert (log + made)[..|log + made| - 1] == log + init && (log + made)[|log + made| - 1] == last;
    assert Behind(log + init) + last.got == Gots(init) + last.got;
  }

  /** The reads that took a connection from `before` to `after`: the first was offered `space` and
      got `amount`, each but the last filled its space, and every one got something. */
  ghost predicate ReadIn(made: seq<Read>, space: int, amount: nat, before: Bytes, after: Bytes) {
    && after == before + Gots(made)
    && (made != [] ==> made[0].space == space && |made[0].got| == amount && AllFill(made[..|made| - 1]))
    && forall i :: 0 <= i < |made| ==> made[i].got != []
  }

  lemma NothingRead(space: int, amount: nat, before: Bytes)
    ensures ReadIn([], space, amount, before, before)
  {
  }

  lemma ReadMore(made: seq<Read>, space: int, amount: nat, before: Bytes, after: Bytes, r: Read)
    requires ReadIn(made, space, amount, before, after) && r.got != []
    requires if made == [] then r.space == space && |r.got| == amount else LastFilled(made)
    ensures ReadIn(made + [r], space, amount, before, after + r.got)
  {
    var more := made + [r];
    assert more[..|made|] == made;
    assert (before + Gots(made)) + r.got == before + (Gots(made) + r.got);
    assert forall i :: 0 <= i < |made| ==> more[i] == made[i];
  }

  lemma AllFilled(made: seq<Read>, space: int, amount: nat, before: Bytes, after: Bytes)
    requires ReadIn(made, space, amount, before, after) && (made == [] || LastFilled(made))
    ensures AllFill(made)
  {
    forall i | 0 <= i < |made|
      ensures Fills(made[i])
    {
      if i < |made| - 1 {
        assert made[i] == made[..|made| - 1][i];
      }
    }
  }

  /** How much a read takes: what fits, of what has arrived. `delays` says for the reads to come
      how much more than one byte has arrived by then; when it has run out, everything has. */
  function Amount(space: nat, available: nat, delays: seq<nat>): (n: nat)
    ensures n <= space && n <= available && (space > 0 && available > 0 ==> n > 0)
  {
    var n := if space < available then space else available;
    if delays != [] && delays[0] + 1 < n then delays[0] + 1 else n
  }

  /** The kernel's side of the connection: bytes that will arrive, bytes that were sent, and how
      many more writes return before one blocks for the rest of the run; and records of the reads,
      of the writes, and of the writes during which another thread shut the connection down. */
  class Socket {
    var incoming: Bytes
    var delays: seq<nat>
    var sent: Bytes
    var writesLeft: nat
    ghost var log: seq<Read>
    ghost var puts: seq<Put>
    ghost var closings: nat

    constructor (incoming: Bytes, delays: seq<nat>, writes: nat)
      ensures this.incoming == incoming && this.delays == delays && sent == [] && writesLeft == writes
      ensures log == [] && puts == [] && closings == 0
    {
      this.incoming, this.delays, sent, writesLeft, log, puts, closings := incoming, delays, [], writes, [], [], 0;
    }

    /** What has arrived and fits, or parks when nothing will come. */
    method Read(max: nat) returns (chunk: Bytes, parked: bool)
      requires max > 0
      modifies this`incoming, this`delays, this`log
      ensures parked == (old(incoming) == [])
      ensures old(incoming) == chunk + incoming
      ensures |chunk| == Amount(max, |old(incoming)|, old(delays))
      ensures delays == if parked || old(delays) == [] then old(delays) else old(delays)[1..]
      ensures log == if parked then old(log) else old(log) + [Got(max, chunk)]
    {
      if incoming == [] {
        return [], true;
      }
      var n := Amount(max, |incoming|, delays);
      chunk, parked := incoming[..n], false;
      incoming := incoming[n..];
      if delays != [] {
        delays := delays[1..];
      }
      log := log + [Got(max, chunk)];
    }

    /** Takes any part of the bytes, possibly none (`rt <= 0`), or parks. `closing` says that
        another thread shut the connection down meanwhile. */
    method Write(bytes: Bytes) returns (rt: int, parked: bool, closing: bool)
      modifies this`sent, this`writesLeft, this`puts, this`closings
      ensures parked == (old(writesLeft) == 0)
      ensures writesLeft == if parked then old(writesLeft) else old(writesLeft) - 1
      ensures closings == if closing then old(closings) + 1 else old(closings)
      ensures -1 <= rt <= |bytes| && (parked ==> rt <= 0 && !closing)
      ensures sent == old(sent) + if rt > 0 then bytes[..rt] else []
      ensures puts == if parked then old(puts) else old(puts) + [Put(bytes, if rt > 0 then rt else 0)]
    {
      if writesLeft == 0 {
        return 0, true, false;
      }
      writesLeft := writesLeft - 1;
      rt :| -1 <= rt <= |bytes|;
      closing :| true;
      if closing {
        closings := closings + 1;
      }
      parked := false;
      puts := puts + [Put(bytes, if rt > 0 then rt else 0)];
      if rt > 0 {
        sent := sent + bytes[..rt];
      }
    }
  }

  ghost function RpcScan(s: Bytes): Parsed<Msg> {
    DecoderIsLawful();
    Scan(DecodeStep, s)
  }

  ghost function RpcDrain(s: Bytes): Parsed<Msg> {
    DecoderIsLawful();
    Drain(DecodeStep, s)
  }

  ghost predicate RpcClean(s: Bytes) {
    DecoderIsLawful();
    Clean(DecodeStep, s)
  }

  ghost function RpcRounds(pieces: seq<Bytes>): Parsed<Msg> {
    DecoderIsLawful();
    Rounds(DecodeStep, [], pieces)
  }

  /** Every received byte is parsed: into a delivered message, or still in the buffer. */
  ghost predicate Accounted(received: Bytes, delivered: seq<Msg>, buffered: Bytes) {
    && RpcScan(received) == Continue(Parsed(delivered, []), RpcScan(buffered))
    && (RpcClean(received) ==> RpcClean(buffered))
    && |buffered| <= |received|
  }

  lemma ReadKeepsAccount(received: Bytes, delivered: seq<Msg>, buffered: Bytes, more: Bytes)
    requires Accounted(received, delivered, buffered)
    ensures Accounted(received + more, delivered, buffered + more)
  {
    hide DecodeStep;
    DecoderIsLawful();
    ScanAppend(DecodeStep, received, more);
    ScanAppend(DecodeStep, buffered, more);
    ContinueAssociates(Parsed(delivered, []), RpcScan(buffered), RpcScan(RpcScan(buffered).rest + more));
  }

  /** An execution keeps the account; on a clean stream it leaves nothing undelivered. */
  lemma DrainKeepsAccount(received: Bytes, delivered: seq<Msg>, buffered: Bytes)
    requires Accounted(received, delivered, buffered)
    ensures var p := RpcDrain(buffered);
      && Accounted(received, delivered + p.msgs, p.rest)
      && (RpcClean(received) ==> delivered + p.msgs == RpcScan(received).msgs)
  {
    hide DecodeStep;
    DecoderIsLawful();
    DrainConserves(DecodeStep, buffered);
    DrainShortens(DecodeStep, buffered);
    var p := RpcDrain(buffered);
    ContinueAssociates(Parsed(delivered, []), Parsed(p.msgs, []), RpcScan(p.rest));
    if RpcClean(received) {
      ScanRestSettled(DecodeStep, buffered);
    }
  }

  /** The loop does what the alternation of reading and executing says: the messages delivered and the
      bytes left over are those of the turns completed so far, and the reads since then wait. */
  ghost predicate Served(log: seq<Read>, received: Bytes, delivered: seq<Msg>, buffered: Bytes) {
    && received == Gots(log)
    && delivered == RpcRounds(Turns(log)).msgs
    && buffered == RpcRounds(Turns(log)).rest + Behind(log)
  }

  lemma NothingServed()
    ensures Served([], [], [], [])
  {
  }

  lemma ServedWaits(log: seq<Read>, made: seq<Read>, received: Bytes, delivered: seq<Msg>, buffered: Bytes)
    requires Served(log, received, delivered, buffered) && AllFill(made)
    ensures Served(log + made, received + Gots(made), delivered, buffered + Gots(made))
  {
    hide AllFill, RpcRounds;
    GotsAppend(log, made);
    FilledWait(log, made);
    Associate(RpcRounds(Turns(log)).rest, Behind(log), Gots(made));
  }

  lemma ServedTurn(log: seq<Read>, made: seq<Read>, received: Bytes, delivered: seq<Msg>, buffered: Bytes)
    requires Served(log, received, delivered, buffered) && Behind(log) == []
    requires made != [] && AllFill(made[..|made| - 1]) && !LastFilled(made)
    ensures var p := RpcDrain(buffered + Gots(made));
            Served(log + made, received + Gots(made), delivered + p.msgs, p.rest)
  {
    hide AllFill, LastFilled, DecodeStep;
    DecoderIsLawful();
    GotsAppend(log, made);
    TurnEnds(log, made);
    assert buffered == RpcRounds(Turns(log)).rest;
    RoundsAppend(DecodeStep, [], Turns(log), Gots(made));
    var p := RpcDrain(buffered + Gots(made));
    assert p.rest + [] == p.rest;
  }

  /** On a clean stream, exactly the messages of the bytes read by the completed turns are delivered. */
  lemma ServedClean(log: seq<Read>, received: Bytes, delivered: seq<Msg>, buffered: Bytes)
    requires Served(log, received, delivered, buffered) && RpcClean(received)
    ensures |Behind(log)| <= |received| && delivered == RpcScan(received[..|received| - |Behind(log)|]).msgs
  {
    hide DecodeStep;
    DecoderIsLawful();
    TurnsAccount(log);
    var done := Flatten(Turns(log));
    assert received[..|done|] == done && [] + done == done;
    ScanAppend(DecodeStep, done, Behind(log));
    assert StepLaw(DecodeStep, []);
    FragmentationIndependence(DecodeStep, [], Turns(log));
  }

  lemma DeliveredIsPrefix(received: Bytes, delivered: seq<Msg>, buffered: Bytes)
    requires Accounted(received, delivered, buffered)
    ensures delivered <= RpcScan(received).msgs
  {
  }

  lemma {:induction false} ReplyStreamAppend(services: Services, ms: seq<Msg>, m: Msg)
    ensures ReplyStream(services, ms + [m]) == ReplyStream(services, ms) + ReplyBytes(services, m)
  {
    assert (ms + [m])[..|ms|] == ms;
  }

  lemma CollectNone(replies: map<Bytes, Msg>)
    ensures Collect(replies, []) == replies
  {
  }

  /** What one more decoding attempt says about the drain that is going on. */
  lemma DrainStep(s: Bytes)
    ensures var d := DecodeStep(s);
      && d.drop <= |s|
      && (d.verdict.Accepted? ==> d.drop > 0 && d.verdict.msg.msgNo != [])
      && (d.verdict.Accepted? ==> RpcDrain(s) == Continue(Parsed([d.verdict.msg], []), RpcDrain(s[d.drop..])))
      && (!d.verdict.Accepted? ==> RpcDrain(s) == Parsed([], s[d.drop..]))
      && (s == [] ==> RpcDrain(s) == Parsed([], []))
  {
    hide DecodeFrame;
    DecoderIsLawful();
    assert StepLaw(DecodeStep, s);
    var t := s[StartOf(s)..];
    if t == [] {
      NothingToDecode(t);
    } else if DecodeStep(s).verdict.Accepted? {
      Canonicity(t);
    }
  }

  lemma DrainMore(s: Bytes, executed: seq<Msg>, t: Bytes, m: Msg, rest: Bytes)
    requires RpcDrain(s) == Continue(Parsed(executed, []), RpcDrain(t))
    requires RpcDrain(t) == Continue(Parsed([m], []), RpcDrain(rest))
    ensures RpcDrain(s) == Continue(Parsed(executed + [m], []), RpcDrain(rest))
  {
    hide RpcDrain;
    ContinueAssociates(Parsed(executed, []), Parsed([m], []), RpcDrain(rest));
  }

  lemma Associate(a: Bytes, b: Bytes, c: Bytes)
    ensures (a + b) + c == a + (b + c)
  {
  }

  lemma DrainStart(s: Bytes)
    ensures RpcDrain(s) == Continue(Parsed([], []), RpcDrain(s))
  {
    hide RpcDrain;
  }

  lemma DrainDone(s: Bytes, executed: seq<Msg>, t: Bytes, rest: Bytes)
    requires RpcDrain(s) == Continue(Parsed(executed, []), RpcDrain(t)) && RpcDrain(t) == Parsed([], rest)
    ensures RpcDrain(s) == Parsed(executed, rest)
  {
    assert executed + [] == executed;
  }

  class TcpConnection {
    const socket: Socket
    const dispatcher: RpcDispatcher
    const connectionType: ConnectionType
    const readBuffer: TcpBuffer
    const writeBuffer: TcpBuffer
    var state: State
    var isOverTime: bool
    var replyDatas: map<Bytes, Msg>

    ghost var services: Services         // what is registered; fixed while the server runs
    ghost var received: Bytes            // everything read from the socket
    ghost var delivered: seq<Msg>        // every message executed, in order

    ghost predicate Buffers()
      reads this, readBuffer, writeBuffer
    {
      && readBuffer != writeBuffer && readBuffer.Valid() && writeBuffer.Valid()
      && readBuffer.buffer != writeBuffer.buffer && readBuffer.buffer.Length > 0
    }

    /** A server has encoded one reply per delivered request, in order, and sent or kept every byte. */
    ghost predicate Replied()
      reads this, socket, dispatcher, readBuffer, writeBuffer, readBuffer.buffer, writeBuffer.buffer
    {
      && Buffers()
      && services == dispatcher.serviceMap
      && (connectionType.ServerConnection? ==>
            socket.sent + writeBuffer.Contents() == ReplyStream(services, delivered))
    }

    /** What the connection owes to its history. */
    ghost predicate Valid()
      reads this, socket, dispatcher, readBuffer, writeBuffer, readBuffer.buffer, writeBuffer.buffer
    {
      Replied() && Accounted(received, delivered, readBuffer.Contents())
    }

    constructor (socket: Socket, dispatcher: RpcDispatcher, connectionType: ConnectionType, size: nat)
      requires size > 0 && socket.sent == []
      ensures Valid() && fresh(readBuffer) && fresh(writeBuffer)
      ensures fresh(readBuffer.buffer) && fresh(writeBuffer.buffer)
      ensures this.socket == socket && this.dispatcher == dispatcher && this.connectionType == connectionType
      ensures received == [] && delivered == [] && replyDatas == map[] && !isOverTime
      ensures readBuffer.Contents() == [] && Space() == size
      ensures state == if connectionType.ServerConnection? then Connected else NotConnected
    {
      this.socket, this.dispatcher, this.connectionType := socket, dispatcher, connectionType;
      readBuffer := new TcpBuffer(size);
      writeBuffer := new TcpBuffer(size);
      state := if connectionType.ServerConnection? then Connected else NotConnected;
      isOverTime := false;
      replyDatas := map[];
      services, received, delivered := dispatcher.serviceMap, [], [];
      new;
      assert Parsed([], []).msgs + RpcScan([]).msgs == RpcScan([]).msgs;
    }

    /** The space the next read is offered. */
    ghost function Space(): int
      reads this, readBuffer
    {
      if readBuffer.WriteAble() == 0 then 2 * readBuffer.buffer.Length - readBuffer.ReadAble()
      else readBuffer.WriteAble()
    }

    /** One read into the free space, which is doubled first when there is none. */
    method ReadOnce() returns (chunk: Bytes, blocked: bool, readCount: nat)
      requires Buffers()
      modifies readBuffer, readBuffer.buffer, socket`incoming, socket`delays, socket`log
      ensures Buffers() && (readBuffer.buffer == old(readBuffer.buffer) || fresh(readBuffer.buffer))
      ensures readBuffer.Contents() == old(readBuffer.Contents()) + chunk
      ensures old(socket.incoming) == chunk + socket.incoming && readCount == old(Space())
      ensures |chunk| == Amount(readCount, |old(socket.incoming)|, old(socket.delays))
      ensures if blocked then old(socket.incoming) == [] && socket.log == old(socket.log)
              else chunk != [] && socket.log == old(socket.log) + [Got(readCount, chunk)]
    {
      if readBuffer.WriteAble() == 0 {
        readBuffer.ResizeBuffer(2 * readBuffer.buffer.Length);
      }
      readCount := readBuffer.WriteAble();
      hide Amount;
      assert readBuffer.Contents() == old(readBuffer.Contents());
      chunk, blocked := socket.Read(readCount);
      if !blocked {
        Absorb(chunk);
      }
    }

    /** What `read` put behind the write index becomes readable. */
    method Absorb(chunk: Bytes)
      requires Buffers() && |chunk| <= readBuffer.WriteAble()
      modifies readBuffer, readBuffer.buffer
      ensures Buffers() && (readBuffer.buffer == old(readBuffer.buffer) || fresh(readBuffer.buffer))
      ensures readBuffer.Contents() == old(readBuffer.Contents()) + chunk
    {
      readBuffer.CopyIn(chunk);
      readBuffer.RecycleWrite(|chunk|);
    }

    /** Reads until a read leaves free space.  `parked` is the source's coroutine waiting inside
        the read: what it has read so far is in the buffer, but execute does not run. The reads made
        are those the socket records; each but the last of a completed call filled the space. */
    method Input() returns (parked: bool)
      requires Valid()
      modifies this`received, readBuffer, readBuffer.buffer, socket`incoming, socket`delays, socket`log
      ensures Valid() && (readBuffer.buffer == old(readBuffer.buffer) || fresh(readBuffer.buffer))
      ensures old(received) <= received && old(received) + old(socket.incoming) == received + socket.incoming
      ensures readBuffer.Contents() == old(readBuffer.Contents()) + received[|old(received)|..]
      ensures old(socket.log) <= socket.log
      ensures var made := socket.log[|old(socket.log)|..];
        && ReadIn(made, old(Space()), Amount(old(Space()), |old(socket.incoming)|, old(socket.delays)),
                  old(received), received)
        && (old(isOverTime || state.Closed? || state.NotConnected?) ==> !parked && made == [])
        // it parks exactly when nothing is left and no read has left space
        && (parked ==> socket.incoming == [] && AllFill(made))
        && (!old(isOverTime || state.Closed? || state.NotConnected?) && !parked ==>
              made != [] && !LastFilled(made))
    {
      hide Accounted, ReplyStream, Amount, ReadIn, RpcScan, AllFill;
      parked := false;
      ghost var before, made, space := socket.log, [], Space();
      ghost var amount := Amount(space, |socket.incoming|, socket.delays);
      NothingRead(space, amount, received);
      assert socket.log[|before|..] == [];
      if isOverTime || state.Closed? || state.NotConnected? {
        return;
      }
      var readAll := false;
      while !readAll
        invariant Valid() && (readBuffer.buffer == old(readBuffer.buffer) || fresh(readBuffer.buffer))
        invariant old(received) + old(socket.incoming) == received + socket.incoming && old(received) <= received
        invariant readBuffer.Contents() == old(readBuffer.Contents()) + received[|old(received)|..]
        invariant socket.log == before + made && ReadIn(made, space, amount, old(received), received)
        invariant made == [] ==> socket.delays == old(socket.delays) && Space() == space && received == old(received)
        invariant if readAll then made != [] && !LastFilled(made) else made == [] || LastFilled(made)
        decreases if readAll then 0 else 1, |socket.incoming|
      {
        ghost var had := received;
        var blocked, readCount, got := ReadNext();
        if blocked {
          AllFilled(made, space, amount, old(received), received);
          parked := true;
          return;
        }
        ghost var chunk := received[|had|..];
        assert had + chunk == received;
        ReadMore(made, space, amount, old(received), had, Got(readCount, chunk));
        made := made + [Got(readCount, chunk)];
        if got < readCount {
          readAll := true;
        }
      }
    }

    /** One read, entered in the history. */
    method ReadNext() returns (blocked: bool, readCount: nat, got: nat)
      requires Valid()
      modifies this`received, readBuffer, readBuffer.buffer, socket`incoming, socket`delays, socket`log
      ensures Valid() && (readBuffer.buffer == old(readBuffer.buffer) || fresh(readBuffer.buffer))
      ensures old(received) <= received && old(received) + old(socket.incoming) == received + socket.incoming
      ensures var chunk := received[|old(received)|..];
        && readBuffer.Contents() == old(readBuffer.Contents()) + chunk
        && readCount == old(Space()) && got == |chunk| == Amount(readCount, |old(socket.incoming)|, old(socket.delays))
        && if blocked then socket.incoming == [] && received == old(received) && socket.log == old(socket.log)
           else chunk != [] && socket.log == old(socket.log) + [Got(readCount, chunk)]
    {
      hide Accounted, ReplyStream, Amount, RpcScan;
      ghost var contents := readBuffer.Contents();
      var chunk;
      chunk, blocked, readCount := ReadOnce();
      got := |chunk|;
      ReadKeepsAccount(received, delivered, contents, chunk);
      received := received + chunk;
    }

    /** A server dispatches the package, a client files it under its number. */
    method HandleMessage(data: RpcStruct)
      requires Buffers() && data.msgNo != []
      modifies this`replyDatas, writeBuffer, writeBuffer.buffer
      ensures Buffers() && (writeBuffer.buffer == old(writeBuffer.buffer) || fresh(writeBuffer.buffer))
      ensures writeBuffer.Contents() ==
                if connectionType.ServerConnection?
                then old(writeBuffer.Contents()) + ReplyBytes(dispatcher.serviceMap, data.View())
                else old(writeBuffer.Contents())
      ensures replyDatas == if connectionType.ServerConnection? || data.msgNo in old(replyDatas) then old(replyDatas)
                            else old(replyDatas)[data.msgNo := data.View()]
    {
      hide ReplyBytes;
      if connectionType.ServerConnection? {
        dispatcher.Dispatch(data, writeBuffer);
      } else if data.msgNo !in replyDatas {
        replyDatas := replyDatas[data.msgNo := data.View()];
      }
    }

    /** One attempt: decode a package and handle it. */
    method ExecuteOne() returns (ok: bool, ghost m: Msg)
      requires Buffers()
      modifies this`replyDatas, readBuffer, writeBuffer, writeBuffer.buffer
      ensures Buffers() && (readBuffer.buffer == old(readBuffer.buffer) || fresh(readBuffer.buffer))
      ensures writeBuffer.buffer == old(writeBuffer.buffer) || fresh(writeBuffer.buffer)
      ensures |readBuffer.Contents()| <= |old(readBuffer.Contents())|
      ensures ok ==> |readBuffer.Contents()| < |old(readBuffer.Contents())|
      ensures RpcDrain(old(readBuffer.Contents())) ==
                if ok then Continue(Parsed([m], []), RpcDrain(readBuffer.Contents()))
                else Parsed([], readBuffer.Contents())
      ensures writeBuffer.Contents() ==
                if ok && connectionType.ServerConnection?
                then old(writeBuffer.Contents()) + ReplyBytes(dispatcher.serviceMap, m)
                else old(writeBuffer.Contents())
      ensures replyDatas ==
                if !ok || connectionType.ServerConnection? || m.msgNo in old(replyDatas) then old(replyDatas)
                else old(replyDatas)[m.msgNo := m]
    {
      hide ReplyBytes, DecodeStep, RpcDrain;
      DrainStep(readBuffer.Contents());
      var data := new RpcStruct();
      Decode(readBuffer, data);
      ok, m := data.decodeSucc, data.View();
      if ok {
        HandleMessage(data);
      }
    }

    /** One turn of the execute loop, with its history. */
    method ExecuteNext() returns (ok: bool, ghost m: Msg)
      requires Replied()
      modifies this`replyDatas, this`delivered, readBuffer, writeBuffer, writeBuffer.buffer
      ensures Replied() && (readBuffer.buffer == old(readBuffer.buffer) || fresh(readBuffer.buffer))
      ensures writeBuffer.buffer == old(writeBuffer.buffer) || fresh(writeBuffer.buffer)
      ensures |readBuffer.Contents()| <= |old(readBuffer.Contents())|
      ensures ok ==> |readBuffer.Contents()| < |old(readBuffer.Contents())|
      ensures RpcDrain(old(readBuffer.Contents())) ==
                if ok then Continue(Parsed([m], []), RpcDrain(readBuffer.Contents()))
                else Parsed([], readBuffer.Contents())
      ensures delivered == if ok then old(delivered) + [m] else old(delivered)
      ensures connectionType.ClientConnection? ==> writeBuffer.Contents() == old(writeBuffer.Contents())
      ensures replyDatas ==
                if !ok || connectionType.ServerConnection? || m.msgNo in old(replyDatas) then old(replyDatas)
                else old(replyDatas)[m.msgNo := m]
    {
      hide DecodeStep, ReplyBytes, ReplyStream, RpcDrain, Continue;
      ghost var w := writeBuffer.Contents();
      ok, m := ExecuteOne();
      if ok {
        ReplyStreamAppend(services, delivered, m);
        Associate(socket.sent, w, ReplyBytes(services, m));
        delivered := delivered + [m];
      }
    }

    /** Executes every complete package in the read buffer, up to the first attempt that fails. */
    method Execute()
      requires Valid()
      modifies this`replyDatas, this`delivered, readBuffer, writeBuffer, writeBuffer.buffer
      ensures Valid() && (readBuffer.buffer == old(readBuffer.buffer) || fresh(readBuffer.buffer))
      ensures writeBuffer.buffer == old(writeBuffer.buffer) || fresh(writeBuffer.buffer)
      ensures var p := RpcDrain(old(readBuffer.Contents()));
        && readBuffer.Contents() == p.rest
        && delivered == old(delivered) + p.msgs
        && (connectionType.ClientConnection? ==>
              replyDatas == Collect(old(replyDatas), p.msgs) && writeBuffer.Contents() == old(writeBuffer.Contents()))
        && (connectionType.ServerConnection? ==> replyDatas == old(replyDatas))
    {
      hide RpcDrain, Accounted, Collect, Continue, ReplyStream;
      ghost var s := readBuffer.Contents();
      ghost var executed: seq<Msg> := [];
      CollectNone(replyDatas);
      DrainStart(s);
      DrainKeepsAccount(received, delivered, s);
      while readBuffer.ReadAble() > 0
        invariant Replied() && (readBuffer.buffer == old(readBuffer.buffer) || fresh(readBuffer.buffer))
        invariant writeBuffer.buffer == old(writeBuffer.buffer) || fresh(writeBuffer.buffer)
        invariant delivered == old(delivered) + executed
        invariant RpcDrain(s) == Continue(Parsed(executed, []), RpcDrain(readBuffer.Contents()))
        invariant connectionType.ServerConnection? ==> replyDatas == old(replyDatas)
        invariant connectionType.ClientConnection? ==>
                    && replyDatas == Collect(old(replyDatas), executed)
                    && writeBuffer.Contents() == old(writeBuffer.Contents())
        decreases readBuffer.ReadAble()
      {
        ghost var t := readBuffer.Contents();
        var ok, m := ExecuteNext();
        if !ok {
          DrainDone(s, executed, t, readBuffer.Contents());
          return;
        }
        DrainMore(s, executed, t, m, readBuffer.Contents());
        CollectAppend(old(replyDatas), executed, m);
        assert (old(delivered) + executed) + [m] == old(delivered) + (executed + [m]);
        executed := executed + [m];
      }
      DrainStep([]);
      DrainDone(s, executed, [], []);
    }

    /** One write of everything that is readable; what the socket took is recycled. */
    method WriteOnce() returns (blocked: bool, closing: bool, ghost taken: nat)
      requires Buffers()
      modifies writeBuffer, socket`sent, socket`writesLeft, socket`puts, socket`closings
      ensures Buffers() && (writeBuffer.buffer == old(writeBuffer.buffer) || fresh(writeBuffer.buffer))
      ensures taken <= |old(writeBuffer.Contents())| && writeBuffer.Contents() == old(writeBuffer.Contents())[taken..]
      ensures socket.sent == old(socket.sent) + old(writeBuffer.Contents())[..taken]
      ensures blocked == (old(socket.writesLeft) == 0) && (blocked ==> !closing && taken == 0)
      ensures socket.writesLeft == if blocked then old(socket.writesLeft) else old(socket.writesLeft) - 1
      ensures socket.puts ==
                if blocked then old(socket.puts) else old(socket.puts) + [Put(old(writeBuffer.Contents()), taken)]
      ensures socket.closings == if closing then old(socket.closings) + 1 else old(socket.closings)
    {
      var totalSize := writeBuffer.ReadAble();
      var readIndex := writeBuffer.readIndex;
      ghost var before := writeBuffer.Contents();
      assert writeBuffer.buffer[readIndex..readIndex + totalSize] == before;
      var rt;
      rt, blocked, closing := socket.Write(writeBuffer.buffer[readIndex..readIndex + totalSize]);
      taken := if rt > 0 then rt else 0;
      if rt > 0 {
        writeBuffer.RecycleRead(rt);
      }
    }

    /** What shutdowns reported during writes make of a live connection. */
    static function After(state: State, closings: int): State {
      if closings > 0 then HalfClosing else state
    }

    /** Writes until the buffer is empty, the connection is shut down, or the socket blocks; nothing
        else stops it, and each write is offered everything that is left. */
    method Output() returns (parked: bool)
      requires Valid()
      modifies this`state, writeBuffer, socket`sent, socket`writesLeft, socket`puts, socket`closings
      ensures Valid() && (writeBuffer.buffer == old(writeBuffer.buffer) || fresh(writeBuffer.buffer))
      ensures old(socket.puts) <= socket.puts && old(socket.sent) <= socket.sent
      ensures Written(old(writeBuffer.Contents()), socket.puts[|old(socket.puts)|..], socket.sent[|old(socket.sent)|..],
                      writeBuffer.Contents())
      ensures socket.sent + writeBuffer.Contents() == old(socket.sent) + old(writeBuffer.Contents())
      ensures socket.closings >= old(socket.closings)
      ensures state == After(old(state), socket.closings - old(socket.closings))
      ensures parked ==> socket.writesLeft == 0 && state.Connected? && writeBuffer.Contents() != [] && !isOverTime
      ensures !parked ==> isOverTime || !state.Connected? || writeBuffer.Contents() == []
      ensures old(isOverTime || !state.Connected?) ==>
                socket.sent == old(socket.sent) && socket.puts == old(socket.puts)
    {
      hide Accounted, ReplyStream, Written;
      parked := false;
      ghost var puts, sent, bytes := socket.puts, socket.sent, writeBuffer.Contents();
      WrittenNone(bytes, puts, sent);
      if isOverTime {
        return;
      }
      while true
        invariant Valid() && (writeBuffer.buffer == old(writeBuffer.buffer) || fresh(writeBuffer.buffer))
        invariant puts <= socket.puts && sent <= socket.sent
        invariant Written(bytes, socket.puts[|puts|..], socket.sent[|sent|..], writeBuffer.Contents())
        invariant socket.sent + writeBuffer.Contents() == sent + bytes
        invariant !old(state.Connected?) ==> socket.sent == sent && socket.puts == puts
        invariant socket.closings >= old(socket.closings)
        invariant state == After(old(state), socket.closings - old(socket.closings))
        decreases socket.writesLeft
      {
        if !state.Connected? || writeBuffer.ReadAble() == 0 {
          return;
        }
        var blocked, closing := WriteNext(bytes, puts, sent);
        if blocked {
          parked := true;
          return;
        }
        if closing {
          ShutdownConnection();
        }
        if writeBuffer.ReadAble() <= 0 {
          return;
        }
      }
    }

    /** One write of the loop, entered in the records since `puts` and `sent`. */
    method WriteNext(ghost bytes: Bytes, ghost puts: seq<Put>, ghost sent: Bytes) returns (blocked: bool, closing: bool)
      requires Valid() && writeBuffer.Contents() != [] && puts <= socket.puts && sent <= socket.sent
      requires Written(bytes, socket.puts[|puts|..], socket.sent[|sent|..], writeBuffer.Contents())
      modifies writeBuffer, socket`sent, socket`writesLeft, socket`puts, socket`closings
      ensures Valid() && (writeBuffer.buffer == old(writeBuffer.buffer) || fresh(writeBuffer.buffer))
      ensures puts <= socket.puts && sent <= socket.sent
      ensures Written(bytes, socket.puts[|puts|..], socket.sent[|sent|..], writeBuffer.Contents())
      ensures socket.sent + writeBuffer.Contents() == old(socket.sent) + old(writeBuffer.Contents())
      ensures blocked == (old(socket.writesLeft) == 0)
      ensures blocked ==> !closing && writeBuffer.Contents() != [] && socket.writesLeft == 0
      ensures !blocked ==> socket.writesLeft == old(socket.writesLeft) - 1
      ensures socket.closings == if closing then old(socket.closings) + 1 else old(socket.closings)
    {
      hide Accounted, ReplyStream, Written;
      ghost var p, s, left := socket.puts, socket.sent, writeBuffer.Contents();
      ghost var taken;
      blocked, closing, taken := WriteOnce();
      if blocked {
        assert left[0..] == left && s + left[..0] == s;
      } else {
        WrittenMore(bytes, puts, sent, p, s, left, taken);
      }
    }

    /** Half-closes a live connection; anything else is left as it is. */
    method ShutdownConnection()
      modifies this`state
      ensures state == if old(state.Closed? || state.NotConnected?) then old(state) else HalfClosing
    {
      if state.Closed? || state.NotConnected? {
        return;
      }
      state := HalfClosing;
    }

    /** Hands the reply of a request over, once. */
    method GetResPackageData(msgNo: Bytes) returns (reply: Option<Msg>)
      modifies this`replyDatas
      ensures reply == if msgNo in old(replyDatas) then Some(old(replyDatas)[msgNo]) else None
      ensures replyDatas == old(replyDatas) - {msgNo}
    {
      if msgNo in replyDatas {
        reply := Some(replyDatas[msgNo]);
        replyDatas := replyDatas - {msgNo};
        return;
      }
      reply := None;
    }

    /** The history of the loop is that of its turns. */
    ghost predicate InTurns()
      reads this, readBuffer, readBuffer.buffer, socket
      requires readBuffer.Valid()
    {
      Served(socket.log, received, delivered, readBuffer.Contents())
    }

    /** Between two turns: a live connection has sent everything, and the last read left space. */
    ghost predicate Caught()
      reads this, readBuffer, readBuffer.buffer, writeBuffer, writeBuffer.buffer, socket
      requires readBuffer.Valid() && writeBuffer.Valid()
    {
      InTurns() && (state.Connected? ==> writeBuffer.Contents() == []) && !LastFilled(socket.log)
    }

    /** Waiting for input: everything that came is read, everything delivered is answered while the
        connection is live, and on a clean stream the delivered messages are those of all bytes but the
        ones of the reads behind the last that left space. */
    ghost predicate Waits()
      reads this, readBuffer, readBuffer.buffer, writeBuffer, writeBuffer.buffer, socket
      requires Buffers()
    {
      && socket.incoming == [] && (state.Connected? ==> writeBuffer.Contents() == []) && InTurns()
      && (RpcClean(received) ==>
            |Behind(socket.log)| <= |received|
            && delivered == RpcScan(received[..|received| - |Behind(socket.log)|]).msgs)
    }

    /** Blocked in a write: the socket takes nothing more, and something is left to send. */
    ghost predicate Blocked()
      reads this, writeBuffer, writeBuffer.buffer, socket
      requires writeBuffer.Valid()
    {
      state.Connected? && socket.writesLeft == 0 && writeBuffer.Contents() != []
    }

    /** The reads of one turn: it waits behind the turns before, or is about to be the next one. */
    method InputTurn() returns (parked: bool)
      requires Valid() && (state.Connected? || state.HalfClosing?) && !isOverTime
      requires InTurns() && !LastFilled(socket.log)
      modifies this`received, readBuffer, readBuffer.buffer, socket`incoming, socket`delays, socket`log
      ensures Valid() && (readBuffer.buffer == old(readBuffer.buffer) || fresh(readBuffer.buffer))
      ensures old(received) + old(socket.incoming) == received + socket.incoming && old(socket.log) <= socket.log
      ensures ReadIn(socket.log[|old(socket.log)|..], old(Space()),
                     Amount(old(Space()), |old(socket.incoming)|, old(socket.delays)), old(received), received)
      ensures if parked then socket.incoming == [] && InTurns()
              else var p := RpcDrain(readBuffer.Contents());
                   && Served(socket.log, received, delivered + p.msgs, p.rest) && !LastFilled(socket.log)
                   && |socket.incoming| < |old(socket.incoming)| && |socket.log| > |old(socket.log)|
    {
      hide Accounted, ReplyStream, RpcDrain, RpcScan, Amount, Served, AllFill, Gots, Behind;
      ghost var had, got, left := socket.log, received, readBuffer.Contents();
      NoneBehind(had);
      parked := Input();
      ghost var made := socket.log[|had|..];
      assert socket.log == had + made && received == got + Gots(made);
      assert received[|got|..] == Gots(made);
      if parked {
        ServedWaits(had, made, got, delivered, left);
      } else {
        ServedTurn(had, made, got, delivered, left);
        SomethingRead(made);
        assert socket.log[|socket.log| - 1] == made[|made| - 1];
      }
    }

    /** One turn of the loop. */
    method ServeOnce() returns (parkedInRead: bool, parkedInWrite: bool)
      requires Valid() && connectionType.ServerConnection? && (state.Connected? || state.HalfClosing?) && !isOverTime
      requires Caught()
      modifies this`state, this`received, this`delivered, this`replyDatas
      modifies readBuffer, readBuffer.buffer, writeBuffer, writeBuffer.buffer
      modifies socket`incoming, socket`delays, socket`log, socket`sent, socket`writesLeft, socket`puts, socket`closings
      ensures Valid() && (readBuffer.buffer == old(readBuffer.buffer) || fresh(readBuffer.buffer))
      ensures writeBuffer.buffer == old(writeBuffer.buffer) || fresh(writeBuffer.buffer)
      ensures old(received) + old(socket.incoming) == received + socket.incoming && old(socket.log) <= socket.log
      ensures ReadIn(socket.log[|old(socket.log)|..], old(Space()),
                     Amount(old(Space()), |old(socket.incoming)|, old(socket.delays)), old(received), received)
      ensures socket.closings >= old(socket.closings)
      ensures state == After(old(state), socket.closings - old(socket.closings))
      ensures InTurns()
      ensures parkedInRead ==> !parkedInWrite && Waits() && socket.incoming == []
      ensures !parkedInRead ==> && |socket.incoming| < |old(socket.incoming)|
                                && |socket.log| > |old(socket.log)| && !LastFilled(socket.log)
      ensures !parkedInRead ==> if parkedInWrite then Blocked() else Caught()
    {
      hide Accounted, ReplyStream, RpcScan, RpcClean, RpcDrain, Amount, Served, ReadIn, LastFilled;
      parkedInWrite := false;
      parkedInRead := InputTurn();
      if parkedInRead {
        WaitsClean(socket.log, received, delivered, readBuffer.Contents());
        return;
      }
      Execute();
      parkedInWrite := Output();
    }

    /** The coroutine of a server connection. It ends by parking for good: in a read, when nothing more
        comes, or in a write, when the socket blocks; nothing else ends it. Whatever the sizes of the
        reads and writes were, the requests delivered are those of its turns, which are the first ones
        of the stream, answered in order. */
    method MainServerLoop() returns (parkedInRead: bool)
      requires Valid() && connectionType.ServerConnection? && state.Connected? && !isOverTime
      requires received == [] && socket.log == []
      modifies this`state, this`received, this`delivered, this`replyDatas
      modifies readBuffer, readBuffer.buffer, writeBuffer, writeBuffer.buffer
      modifies socket`incoming, socket`delays, socket`log, socket`sent, socket`writesLeft, socket`puts, socket`closings
      ensures Valid()
      ensures old(socket.incoming) == received + socket.incoming
      ensures InTurns() && delivered <= RpcScan(received).msgs
      ensures socket.sent <= ReplyStream(services, delivered)
      ensures state == After(Connected, socket.closings - old(socket.closings))
      ensures parkedInRead ==> Waits() && (state.Connected? ==> socket.sent == ReplyStream(services, delivered))
      ensures !parkedInRead ==> Blocked() && socket.log != [] && !LastFilled(socket.log)
      ensures Begins(socket.log, old(Space()), Amount(old(Space()), |old(socket.incoming)|, old(socket.delays)))
    {
      hide Accounted, ReplyStream, RpcScan, RpcClean, RpcDrain, Served, Waits, Amount, Gots, LastFilled, Blocked;
      StartsCaught(this);
      ghost var space := Space();
      ghost var amount := Amount(space, |socket.incoming|, socket.delays);
      while true
        invariant Valid() && !isOverTime && Caught()
        invariant readBuffer.buffer == old(readBuffer.buffer) || fresh(readBuffer.buffer)
        invariant writeBuffer.buffer == old(writeBuffer.buffer) || fresh(writeBuffer.buffer)
        invariant old(socket.incoming) == received + socket.incoming
        invariant socket.closings >= old(socket.closings)
        invariant state == After(Connected, socket.closings - old(socket.closings))
        invariant if socket.log == [] then unchanged(this, socket, readBuffer)
                  else Begins(socket.log, space, amount) && !LastFilled(socket.log)
        decreases |socket.incoming|
      {
        ghost var had, got, now := socket.log, received, Space();
        ghost var some := Amount(now, |socket.incoming|, socket.delays);
        var parkedInWrite;
        parkedInRead, parkedInWrite := ServeOnce();
        ghost var made := socket.log[|had|..];
        assert socket.log == had + made;
        if socket.log == [] {
          NothingMore(made, now, some, got, received);
        }
        BeginsKept(had, made, space, amount, now, some, got, received);
        if parkedInRead {
          WaitsSent(this);
          break;
        }
        if parkedInWrite {
          break;
        }
      }
      DeliveredIsPrefix(received, delivered, readBuffer.Contents());
    }
  }

  /** The first read of a connection was offered `space` and got `amount`, if anything came at all;
      no read got nothing. */
  ghost predicate Begins(log: seq<Read>, space: int, amount: nat) {
    && (amount > 0 ==> log != [])
    && (log != [] ==> log[0].space == space && |log[0].got| == amount)
    && forall i :: 0 <= i < |log| ==> log[i].got != []
  }

  lemma NothingMore(made: seq<Read>, space: int, amount: nat, before: Bytes, after: Bytes)
    requires ReadIn(made, space, amount, before, after) && made == []
    ensures after == before
  {
  }

  lemma BeginsKept(had: seq<Read>, made: seq<Read>, space: int, amount: nat, now: int, some: nat,
                   got: Bytes, received: Bytes)
    requires ReadIn(made, now, some, got, received)
    requires if had == [] then now == space && some == amount else Begins(had, space, amount)
    requires had + made == [] ==> amount == 0
    ensures Begins(had + made, space, amount)
  {
    hide Gots;
    var log := had + made;
    assert forall i :: 0 <= i < |made| ==> log[|had| + i] == made[i];
  }

  lemma SomethingRead(made: seq<Read>)
    requires made != [] && made[|made| - 1].got != []
    ensures |Gots(made)| > 0
  {
  }

  lemma NoneBehind(log: seq<Read>)
    requires !LastFilled(log)
    ensures Behind(log) == []
  {
  }

  lemma WaitsClean(log: seq<Read>, received: Bytes, delivered: seq<Msg>, buffered: Bytes)
    requires Served(log, received, delivered, buffered)
    ensures RpcClean(received) ==>
              |Behind(log)| <= |received| && delivered == RpcScan(received[..|received| - |Behind(log)|]).msgs
  {
    if RpcClean(received) {
      ServedClean(log, received, delivered, buffered);
    }
  }

  lemma StartsCaught(c: TcpConnection)
    requires c.Valid() && c.connectionType.ServerConnection? && c.received == [] && c.socket.log == []
    ensures c.Caught()
  {
    NothingYet(c.delivered, c.readBuffer.Contents());
    NothingServed();
    NoReplies(c.services);
  }

  lemma WaitsSent(c: TcpConnection)
    requires c.Valid() && c.connectionType.ServerConnection? && c.Waits()
    ensures c.state.Connected? ==> c.socket.sent == ReplyStream(c.services, c.delivered)
  {
    hide ReplyStream;
    assert c.socket.sent + [] == c.socket.sent;
  }

  lemma NothingYet(delivered: seq<Msg>, buffered: Bytes)
    requires Accounted([], delivered, buffered)
    ensures delivered == [] == RpcScan([]).msgs
  {
    DecoderIsLawful();
    assert StepLaw(DecodeStep, []);
  }

  lemma NoReplies(services: Services)
    ensures ReplyStream(services, []) == []
  {
  }

  /** On a clean stream something is undelivered exactly if a drain of the buffer would deliver it. */
  lemma LeftBehind(received: Bytes, delivered: seq<Msg>, buffered: Bytes)
    requires Accounted(received, delivered, buffered)
    ensures RpcClean(received) ==> (delivered != RpcScan(received).msgs <==> RpcDrain(buffered).msgs != [])
  {
    DrainKeepsAccount(received, delivered, buffered);
  }

  /** What a loop that waits has not delivered of a clean stream was completed by a read that filled its
      space, and a drain of the buffer would deliver it. */
  lemma LeftByFilling(c: TcpConnection)
    requires c.Valid() && c.Waits() && RpcClean(c.received)
    ensures c.delivered != RpcScan(c.received).msgs
       <==> LastFilled(c.socket.log) && RpcDrain(c.readBuffer.Contents()).msgs != []
  {
    LeftBehind(c.received, c.delivered, c.readBuffer.Contents());
    hide Accounted, RpcDrain, RpcScan, Served;
    if !LastFilled(c.socket.log) {
      assert c.received[..|c.received|] == c.received;
    }
  }

  /** A complete request that waits: any message whose frame is exactly as long as the buffer, and
      arrives whole, is read by the loop, which then parks and has not executed it. */
  method CompleteRequestWaits(dispatcher: RpcDispatcher, m: Msg) returns (c: TcpConnection, parked: bool)
    requires Canonical(m)
    ensures fresh(c) && c.Valid() && parked && c.Waits() && LastFilled(c.socket.log)
    ensures c.received == c.readBuffer.Contents() == Frame(m) && c.socket.incoming == []
    ensures RpcClean(c.received) && c.delivered == []
    ensures RpcDrain(c.readBuffer.Contents()).msgs == RpcScan(c.received).msgs == [m]
  {
    hide Accounted, ReplyStream, Frame, RpcDrain, RpcScan, Served, RpcClean;
    var f := Frame(m);
    DrainOfFrame(m);
    var socket := new Socket(f, [], 0);
    c := new TcpConnection(socket, dispatcher, ServerConnection, |f|);
    assert c.Space() == |f|;
    parked := c.MainServerLoop();
    OneFilledRead(c.socket.log, f, c.received, c.socket.incoming, c.delivered, c.readBuffer.Contents());
  }

  lemma {:induction false} GotsLength(log: seq<Read>)
    requires log != [] && forall i :: 0 <= i < |log| ==> log[i].got != []
    ensures |Gots(log)| >= |log[0].got| + |log| - 1
  {
    if |log| > 1 {
      GotsLength(log[..|log| - 1]);
    }
  }

  lemma OneFilledRead(log: seq<Read>, f: Bytes, received: Bytes, incoming: Bytes, delivered: seq<Msg>, buffered: Bytes)
    requires f != [] && f == received + incoming && Begins(log, |f|, |f|) && Served(log, received, delivered, buffered)
    ensures LastFilled(log) && received == f == buffered && incoming == [] && delivered == []
  {
    GotsLength(log);
    assert |log| == 1 && log[..0] == [];
    NothingServed();
    assert Behind(log) == Gots(log);
  }

  lemma DrainOfFrame(m: Msg)
    requires Canonical(m)
    ensures Frame(m) != [] && RpcDrain(Frame(m)) == Parsed([m], [])
    ensures RpcScan(Frame(m)).msgs == [m] && RpcClean(Frame(m))
  {
    hide DecodeStep, Frame;
    var f := Frame(m);
    RoundTrip(m, []);
    assert f + [] == f;
    DecoderIsLawful();
    OnePacket(DecodeStep, f, m);
  }
}
