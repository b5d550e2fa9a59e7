/** Requests in, replies out.  Services are abstract: what a method does to the bytes of a
    request is a parameter, as protobuf and the user's code are. */
module RpcDispatch {
  import opened Bytes
  import opened Streams
  import opened RpcFrame
  import opened RpcStream
  import opened RpcCodec
  import opened TcpBuffers

  const ERROR_FAILED_SERIALIZE: Int32 := 10000004
  const ERROR_SERVICE_NOT_FOUND: Int32 := 10000008
  const ERROR_METHOD_NOT_FOUND: Int32 := 10000009

  const NO_SERVICE: Bytes := "not found service_name:["
  const NO_METHOD: Bytes := "not found method_name:["
  const UNPARSED: Bytes := "faild to parse request data"
  const REQUEST_NAME: Bytes := ", request.name:["
  const BAD_REQUEST: Bytes := UNPARSED + REQUEST_NAME
  const BAD_RESPONSE: Bytes := "failed to serilize relpy data"

  /** `call` gives the serialized response, or nothing when it cannot be serialized. */
  datatype Method = Method(requestName: Bytes, parses: Bytes -> bool, call: Bytes -> Option<Bytes>)
  datatype Service = Service(methods: map<Bytes, Method>)
  type Services = map<Bytes, Service>

  /** The answer to a request: an error that names what is missing, or the response. */
  function Reply(services: Services, m: Msg): Msg {
    var r := Msg(m.msgNo, m.serviceName, m.methodName, [], 0, []);
    if m.serviceName !in services then
      r.(errCode := ERROR_SERVICE_NOT_FOUND, errInfo := NO_SERVICE + m.serviceName + "]")
    else if m.methodName !in services[m.serviceName].methods then
      r.(errCode := ERROR_METHOD_NOT_FOUND, errInfo := NO_METHOD + m.methodName + "]")
    else
      var f := services[m.serviceName].methods[m.methodName];
      if !f.parses(m.pbData) then
        r.(errCode := ERROR_FAILED_SERIALIZE, errInfo := BAD_REQUEST + f.requestName + "]")
      else match f.call(m.pbData)
        case Some(response) => r.(pbData := response)
        case None => r.(errCode := ERROR_FAILED_SERIALIZE, errInfo := BAD_RESPONSE)
  }

  /** The method is there, the request can be read, and this is its response. */
  ghost predicate Yields(services: Services, m: Msg, response: Bytes) {
    && m.serviceName in services && m.methodName in services[m.serviceName].methods
    && var f := services[m.serviceName].methods[m.methodName];
    f.parses(m.pbData) && f.call(m.pbData) == Some(response)
  }

  ghost predicate Fails(r: Msg, code: int, info: Bytes) {
    r.errCode == code && r.errInfo == info && r.pbData == []
  }

  /** What a reply must be: it carries the number and the names of the request, and the response of the
      method, without an error, if and only if there is one; else no payload, and the code and the text
      of the first step that fails. */
  ghost predicate RightReply(services: Services, m: Msg, r: Msg) {
    && r.msgNo == m.msgNo && r.serviceName == m.serviceName && r.methodName == m.methodName
    && (forall response :: Yields(services, m, response) <==> r.errCode == 0 && r.errInfo == [] && r.pbData == response)
    && (m.serviceName !in services ==> Fails(r, 10000008, "not found service_name:[" + m.serviceName + "]"))
    && (m.serviceName in services ==>
          var methods := services[m.serviceName].methods;
          && (m.methodName !in methods ==> Fails(r, 10000009, "not found method_name:[" + m.methodName + "]"))
          && (m.methodName in methods ==>
                var f := methods[m.methodName];
                && (!f.parses(m.pbData) ==>
                      Fails(r, 10000004, "faild to parse request data" + ", request.name:[" + f.requestName + "]"))
                && (f.parses(m.pbData) && f.call(m.pbData).None? ==>
                      Fails(r, 10000004, "failed to serilize relpy data"))))
  }

  lemma ReplyIsRight(services: Services, m: Msg)
    ensures RightReply(services, m, Reply(services, m))
  {
  }

  /** What one dispatch appends to the out buffer: an oversized reply is dropped. */
  function ReplyBytes(services: Services, m: Msg): Bytes {
    var r := Reply(services, m);
    if Encodable(r) then Frame(r) else []
  }

  function ReplyStream(services: Services, ms: seq<Msg>): Bytes {
    if ms == [] then [] else ReplyStream(services, ms[..|ms| - 1]) + ReplyBytes(services, ms[|ms| - 1])
  }

  class RpcDispatcher {
    var serviceMap: Services

    constructor ()
      ensures serviceMap == map[]
    {
      serviceMap := map[];
    }

    method RegisterService(name: Bytes, service: Service)
      modifies this
      ensures serviceMap == old(serviceMap)[name := service]
    {
      serviceMap := serviceMap[name := service];
    }

    /** The reply package, filled in field by field. */
    method BuildReply(data: RpcStruct) returns (replyPk: RpcStruct)
      ensures fresh(replyPk) && replyPk.View() == Reply(serviceMap, data.View())
      ensures RightReply(serviceMap, data.View(), replyPk.View())
    {
      ReplyIsRight(serviceMap, data.View());
      replyPk := new RpcStruct();
      replyPk.msgNo, replyPk.serviceName, replyPk.methodName := data.msgNo, data.serviceName, data.methodName;
      if data.serviceName !in serviceMap {
        replyPk.errCode := ERROR_SERVICE_NOT_FOUND;
        replyPk.errInfo := NO_SERVICE + data.serviceName + "]";
        return;
      }
      var service := serviceMap[data.serviceName];
      if data.methodName !in service.methods {
        replyPk.errCode := ERROR_METHOD_NOT_FOUND;
        replyPk.errInfo := NO_METHOD + data.methodName + "]";
        return;
      }
      var f := service.methods[data.methodName];
      if !f.parses(data.pbData) {
        replyPk.errCode := ERROR_FAILED_SERIALIZE;
        replyPk.errInfo := BAD_REQUEST + f.requestName + "]";
        return;
      }
      var response := f.call(data.pbData);
      if response.None? {
        replyPk.errCode := ERROR_FAILED_SERIALIZE;
        replyPk.errInfo := BAD_RESPONSE;
      } else {
        replyPk.pbData := response.value;
      }
    }

    /** Answers a decoded request, which always has a number, into the out buffer. */
    method Dispatch(data: RpcStruct, out: TcpBuffer)
      requires out.Valid() && data.msgNo != []
      modifies out, out.buffer
      ensures out.Valid() && (out.buffer == old(out.buffer) || fresh(out.buffer))
      ensures out.Contents() == old(out.Contents()) + ReplyBytes(serviceMap, data.View())
    {
      hide Frame, Encodable;
      var replyPk := BuildReply(data);
      Encode(out, replyPk, []);
    }
  }

  // ----- the client's side -----

  /** `std::map::insert`: a reply whose number is already waiting is dropped. */
  function Collect(replies: map<Bytes, Msg>, ms: seq<Msg>): map<Bytes, Msg> {
    if ms == [] then replies
    else
      var before := Collect(replies, ms[..|ms| - 1]);
      var m := ms[|ms| - 1];
      if m.msgNo in before then before else before[m.msgNo := m]
  }

  /** A number that waits already keeps its reply; else the first reply with it stays. */
  lemma {:induction false} FirstStays(replies: map<Bytes, Msg>, ms: seq<Msg>, k: nat)
    ensures forall no :: no in replies ==> no in Collect(replies, ms) && Collect(replies, ms)[no] == replies[no]
    ensures k < |ms| && ms[k].msgNo !in replies && (forall i :: 0 <= i < k ==> ms[i].msgNo != ms[k].msgNo) ==>
              ms[k].msgNo in Collect(replies, ms) && Collect(replies, ms)[ms[k].msgNo] == ms[k]
    ensures forall no :: no in Collect(replies, ms) ==> no in replies || exists i :: 0 <= i < |ms| && ms[i].msgNo == no
    decreases |ms|
  {
    if ms != [] {
      var init := ms[..|ms| - 1];
      FirstStays(replies, init, k);
      assert forall i :: 0 <= i < |init| ==> init[i] == ms[i];
    }
  }

  lemma CollectAppend(replies: map<Bytes, Msg>, ms: seq<Msg>, m: Msg)
    ensures Collect(replies, ms + [m]) == var c := Collect(replies, ms); if m.msgNo in c then c else c[m.msgNo := m]
  {
    assert (ms + [m])[..|ms|] == ms;
  }

  ghost predicate DistinctNumbers(ms: seq<Msg>) {
    forall i, j :: 0 <= i < j < |ms| ==> ms[i].msgNo != ms[j].msgNo
  }

  /** With distinct numbers nothing is dropped or confused: the map holds each reply under its number. */
  lemma {:induction false} CollectDistinct(ms: seq<Msg>)
    requires DistinctNumbers(ms)
    ensures Collect(map[], ms).Keys == set i | 0 <= i < |ms| :: ms[i].msgNo
    ensures forall i :: 0 <= i < |ms| ==> ms[i].msgNo in Collect(map[], ms) && Collect(map[], ms)[ms[i].msgNo] == ms[i]
    decreases |ms|
  {
    if ms != [] {
      CollectDistinct(ms[..|ms| - 1]);
    }
  }

  // ----- correspondence -----

  ghost predicate Requests(ms: seq<Msg>) {
    forall i :: 0 <= i < |ms| ==> Canonical(ms[i])
  }

  /** The answers that fit into a frame, in the order of their requests. */
  function FittingReplies(services: Services, ms: seq<Msg>): seq<Msg> {
    if ms == [] then []
    else
      var r := Reply(services, ms[|ms| - 1]);
      FittingReplies(services, ms[..|ms| - 1]) + if Encodable(r) then [r] else []
  }

  lemma ReplyIsCanonical(services: Services, m: Msg)
    requires Canonical(m)
    ensures var r := Reply(services, m);
      && r.msgNo == m.msgNo && r.serviceName == m.serviceName && r.methodName == m.methodName
      && (Canonical(r) <==> PacketLen(r) <= MAX_PACKET_LEN)
  {
  }

  ghost function Silent(ms: seq<Msg>): (items: seq<Item>)
    ensures |items| == |ms| && forall i :: 0 <= i < |ms| ==> items[i] == Item([], ms[i])
  {
    seq(|ms|, i requires 0 <= i < |ms| => Item([], ms[i]))
  }

  lemma {:induction false} WireAppend<M>(ps: seq<Packet<M>>, p: Packet<M>)
    ensures Wire(ps + [p], []) == Wire(ps, []) + p.bytes
    decreases |ps|
  {
    if ps == [] {
      assert [p][1..] == [] && p.bytes + [] == p.bytes;
    } else {
      assert (ps + [p])[1..] == ps[1..] + [p];
      WireAppend(ps[1..], p);
    }
  }

  lemma PacketsAppend(rs: seq<Msg>, r: Msg)
    requires Requests(rs) && Canonical(r)
    ensures Packets(Silent(rs + [r])) == Packets(Silent(rs)) + [Packet(Frame(r), r)]
  {
    hide Frame;
    assert [] + Frame(r) == Frame(r);
  }

  /** The bytes the server appends are exactly the frames of the fitting replies. */
  lemma {:induction false} ReplyStreamIsWire(services: Services, ms: seq<Msg>)
    requires Requests(ms)
    ensures var rs := FittingReplies(services, ms);
      Requests(rs) && ReplyStream(services, ms) == Wire(Packets(Silent(rs)), [])
    decreases |ms|
  {
    hide Frame, Reply, Encodable;
    if ms != [] {
      var before, m := ms[..|ms| - 1], ms[|ms| - 1];
      var r := Reply(services, m);
      ReplyStreamIsWire(services, before);
      ReplyIsCanonical(services, m);
      var rs := FittingReplies(services, before);
      hide Wire, Packets, Canonical;
      assert rs + [] == rs && ReplyStream(services, before) + [] == ReplyStream(services, before);
      if Encodable(r) {
        EncodableReply(services, m);
        PacketsAppend(rs, r);
        WireAppend(Packets(Silent(rs)), Packet(Frame(r), r));
      }
    }
  }

  lemma EncodableReply(services: Services, m: Msg)
    requires Canonical(m) && Encodable(Reply(services, m))
    ensures Canonical(Reply(services, m))
  {
    ReplyIsCanonical(services, m);
  }

  /** The reply to a request fits a packet. */
  predicate Fits(services: Services, m: Msg) {
    PacketLen(Reply(services, m)) <= MAX_PACKET_LEN
  }

  lemma FitsExactly(services: Services, m: Msg)
    requires Canonical(m)
    ensures Reply(services, m).msgNo == m.msgNo
    ensures Fits(services, m) <==> Encodable(Reply(services, m))
  {
    ReplyIsCanonical(services, m);
  }

  /** Under the number of each request whose reply fits there is the reply to that very request, and
      nothing else is there. */
  ghost predicate Answered(services: Services, ms: seq<Msg>, found: map<Bytes, Msg>) {
    && (forall no :: no in found <==> exists i :: 0 <= i < |ms| && ms[i].msgNo == no && Fits(services, ms[i]))
    && forall i :: 0 <= i < |ms| && Fits(services, ms[i]) ==>
         && ms[i].msgNo in found && found[ms[i].msgNo] == Reply(services, ms[i])
         && RightReply(services, ms[i], found[ms[i].msgNo])
  }

  lemma AnsweredMore(services: Services, ms: seq<Msg>, m: Msg, found: map<Bytes, Msg>)
    requires Answered(services, ms, found) && DistinctNumbers(ms + [m])
    ensures m.msgNo !in found
    ensures Answered(services, ms + [m], if Fits(services, m) then found[m.msgNo := Reply(services, m)] else found)
  {
    ReplyIsRight(services, m);
    hide Reply, Fits, RightReply;
    var all := ms + [m];
    assert forall i :: 0 <= i < |ms| ==> all[i] == ms[i];
    assert all[|ms|] == m;
  }

  /** The map a client makes of the fitting replies. */
  lemma {:induction false} FittingAnswered(services: Services, ms: seq<Msg>)
    requires Requests(ms) && DistinctNumbers(ms)
    ensures Answered(services, ms, Collect(map[], FittingReplies(services, ms)))
    decreases |ms|
  {
    hide Reply, Fits, Encodable, Answered, Canonical;
    if ms == [] {
      NoneAnswered(services);
    } else {
      var init, m := ms[..|ms| - 1], ms[|ms| - 1];
      var rs := FittingReplies(services, init);
      FittingAnswered(services, init);
      FitsExactly(services, m);
      assert ms == init + [m];
      AnsweredMore(services, init, m, Collect(map[], rs));
      CollectAppend(map[], rs, Reply(services, m));
      assert rs + [] == rs;
    }
  }

  lemma NoneAnswered(services: Services)
    ensures Answered(services, [], Collect(map[], FittingReplies(services, [])))
  {
  }

  lemma {:induction false} FittingAll(services: Services, ms: seq<Msg>)
    requires Requests(ms) && forall i :: 0 <= i < |ms| ==> Fits(services, ms[i])
    ensures var rs := FittingReplies(services, ms);
      |rs| == |ms| && forall i :: 0 <= i < |ms| ==> rs[i] == Reply(services, ms[i])
    decreases |ms|
  {
    hide Reply;
    if ms != [] {
      FittingAll(services, ms[..|ms| - 1]);
      ReplyIsCanonical(services, ms[|ms| - 1]);
    }
  }

  /** Request/reply correspondence: requests with distinct numbers, the replies cut into reads in any
      way.  The client decodes exactly the replies that fit, in the order of the requests, and finds
      each under the number of its request, and nothing under the other numbers. */
  lemma Correspondence(services: Services, ms: seq<Msg>, pieces: seq<Bytes>)
    requires Requests(ms) && DistinctNumbers(ms)
    requires Flatten(pieces) == ReplyStream(services, ms)
    ensures Lawful(DecodeStep)
    ensures var p := Rounds(DecodeStep, [], pieces);
      && p == Parsed(FittingReplies(services, ms), []) && Answered(services, ms, Collect(map[], p.msgs))
      && ((forall i :: 0 <= i < |ms| ==> Fits(services, ms[i])) ==>
            |p.msgs| == |ms| && forall i :: 0 <= i < |ms| ==> p.msgs[i] == Reply(services, ms[i]))
  {
    hide Frame, Reply, Rounds, Collect, Fits, Answered, DistinctNumbers;
    var rs := FittingReplies(services, ms);
    ReplyStreamIsWire(services, ms);
    FittingAnswered(services, ms);
    if forall i :: 0 <= i < |ms| ==> Fits(services, ms[i]) {
      FittingAll(services, ms);
    }
    var k := RpcDelivery(Silent(rs), [], pieces, 0);
    assert Messages(Packets(Silent(rs))) == rs;
  }

  /** From the client's bytes back to the client's map: requests with distinct numbers, cut into reads in
      any way on their way to the server; the replies the server appends, cut in any way on their way
      back. */
  lemma EndToEnd(services: Services, items: seq<Item>, tail: Bytes, requests: seq<Bytes>)
    requires WellFormed(items) && PACKET_START !in tail && Flatten(requests) == Wire(Packets(items), tail)
    requires DistinctNumbers(Messages(Packets(items)))
    ensures Lawful(DecodeStep)
    ensures var served := Rounds(DecodeStep, [], requests).msgs;
      && served == Messages(Packets(items))
      && forall replies: seq<Bytes> :: Flatten(replies) == ReplyStream(services, served) ==>
           Answered(services, served, Collect(map[], Rounds(DecodeStep, [], replies).msgs))
  {
    var ms := Messages(Packets(items));
    ItemsAreRequests(items);
    var k := RpcDelivery(items, tail, requests, 0);
    hide *;
    forall replies: seq<Bytes> | Flatten(replies) == ReplyStream(services, ms)
      ensures Answered(services, ms, Collect(map[], Rounds(DecodeStep, [], replies).msgs))
    {
      Correspondence(services, ms, replies);
    }
  }

  lemma ItemsAreRequests(items: seq<Item>)
    requires WellFormed(items)
    ensures Requests(Messages(Packets(items)))
  {
    hide Frame, Canonical;
  }
}
