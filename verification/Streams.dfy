/** What a connection makes of a byte stream that arrives in pieces, for any codec.
    `Drain` is one run of the execute loop, `Rounds` the alternation of reading a
    piece and executing; `Scan` is the reference, which parses a stream in one go. */
module Streams {
  import opened Bytes

  /** Outcome of one decoding attempt: nothing complete yet, bad bytes, or a message. */
  datatype Verdict<+M> = Waiting | Malformed | Accepted(msg: M)

  /** The verdict and how many readable bytes the attempt removes. */
  datatype Step<+M> = Step(verdict: Verdict<M>, drop: nat)

  type Decoder<!M> = Bytes -> Step<M>

  /** An attempt that decides something removes something; one that waits leaves bytes on
      which the next attempt waits without removing anything. */
  ghost predicate StepLaw<M>(dec: Decoder<M>, s: Bytes) {
    var d := dec(s);
    && d.drop <= |s|
    && (d.verdict.Waiting? ==> dec(s[d.drop..]) == Step(Waiting, 0))
    && (!d.verdict.Waiting? ==> d.drop > 0)
    && (s == [] ==> d.verdict.Waiting?)
  }

  /** A message or malformed bytes stay what they are when more bytes arrive; a waiting
      attempt loses nothing: it can be repeated on what it left, with the new bytes behind. */
  ghost predicate AppendLaw<M>(dec: Decoder<M>, a: Bytes, b: Bytes) {
    var d := dec(a);
    d.drop <= |a| &&
    if d.verdict.Waiting? then
      var e := dec(a[d.drop..] + b);
      dec(a + b) == Step(e.verdict, d.drop + e.drop)
    else dec(a + b) == d
  }

  ghost predicate Lawful<M>(dec: Decoder<M>) {
    && (forall s :: StepLaw(dec, s))
    && (forall a, b :: AppendLaw(dec, a, b))
  }

  datatype Parsed<+M> = Parsed(msgs: seq<M>, rest: Bytes)

  /** The reference parse: resynchronises behind malformed bytes and goes on. */
  ghost function Scan<M>(dec: Decoder<M>, s: Bytes): Parsed<M>
    requires Lawful(dec)
    decreases |s|
  {
    assert StepLaw(dec, s);
    var d := dec(s);
    match d.verdict
    case Waiting => Parsed([], s[d.drop..])
    case Malformed => Scan(dec, s[d.drop..])
    case Accepted(m) => Continue(Parsed([m], []), Scan(dec, s[d.drop..]))
  }

  /** No malformed bytes anywhere on the way. */
  ghost predicate Clean<M>(dec: Decoder<M>, s: Bytes)
    requires Lawful(dec)
    decreases |s|
  {
    assert StepLaw(dec, s);
    var d := dec(s);
    match d.verdict
    case Waiting => true
    case Malformed => false
    case Accepted(_) => Clean(dec, s[d.drop..])
  }

  /** One run of the execute loop: it ends at the first attempt that yields no message. */
  ghost function Drain<M>(dec: Decoder<M>, s: Bytes): Parsed<M>
    requires Lawful(dec)
    decreases |s|
  {
    assert StepLaw(dec, s);
    var d := dec(s);
    match d.verdict
    case Accepted(m) => Continue(Parsed([m], []), Drain(dec, s[d.drop..]))
    case _ => Parsed([], s[d.drop..])
  }

  /** Reading and executing the pieces one after the other, with `buffered` left over from before. */
  ghost function Rounds<M>(dec: Decoder<M>, buffered: Bytes, pieces: seq<Bytes>): Parsed<M>
    requires Lawful(dec)
    decreases |pieces|
  {
    if pieces == [] then Parsed([], buffered)
    else
      var d := Drain(dec, buffered + pieces[0]);
      Continue(d, Rounds(dec, d.rest, pieces[1..]))
  }

  function Flatten(pieces: seq<Bytes>): Bytes
  {
    if pieces == [] then [] else pieces[0] + Flatten(pieces[1..])
  }

  /** `p`, then `q` parsed from its rest. */
  function Continue<M>(p: Parsed<M>, q: Parsed<M>): Parsed<M> {
    Parsed(p.msgs + q.msgs, q.rest)
  }

  lemma ContinueAssociates<M>(p: Parsed<M>, q: Parsed<M>, r: Parsed<M>)
    ensures Continue(Continue(p, q), r) == Continue(p, Continue(q, r))
  {
    assert (p.msgs + q.msgs) + r.msgs == p.msgs + (q.msgs + r.msgs);
  }

  /** Nothing the decoder could do without more bytes. */
  ghost predicate Settled<M>(dec: Decoder<M>, s: Bytes) {
    dec(s) == Step(Waiting, 0)
  }

  // ----- the reference -----

  /** The reference parse can be cut anywhere. */
  lemma {:induction false} ScanAppend<M>(dec: Decoder<M>, a: Bytes, b: Bytes)
    requires Lawful(dec)
    ensures Scan(dec, a + b) == Continue(Scan(dec, a), Scan(dec, Scan(dec, a).rest + b))
    ensures Clean(dec, a + b) <==> Clean(dec, a) && Clean(dec, Scan(dec, a).rest + b)
    decreases |a|
  {
    assert StepLaw(dec, a) && AppendLaw(dec, a, b);
    var d := dec(a);
    var t := a[d.drop..] + b;
    assert (a + b)[d.drop..] == t;
    if d.verdict.Waiting? {
      assert StepLaw(dec, t);
      var e := dec(t);
      assert (a + b)[d.drop + e.drop..] == t[e.drop..];
    } else {
      ScanAppend(dec, a[d.drop..], b);
      if d.verdict.Accepted? {
        var p := Scan(dec, a[d.drop..]);
        ContinueAssociates(Parsed([d.verdict.msg], []), p, Scan(dec, p.rest + b));
      }
    }
  }

  lemma {:induction false} ScanRestSettled<M>(dec: Decoder<M>, s: Bytes)
    requires Lawful(dec)
    ensures Settled(dec, Scan(dec, s).rest)
    decreases |s|
  {
    assert StepLaw(dec, s);
    if !dec(s).verdict.Waiting? {
      ScanRestSettled(dec, s[dec(s).drop..]);
    }
  }

  // ----- the execute loop against the reference -----

  /** Stopping early loses nothing: the rest still holds exactly the messages not delivered. */
  lemma {:induction false} DrainConserves<M>(dec: Decoder<M>, s: Bytes)
    requires Lawful(dec)
    ensures Scan(dec, s) == Continue(Drain(dec, s), Scan(dec, Drain(dec, s).rest))
    ensures Clean(dec, s) ==> Drain(dec, s) == Scan(dec, s)
    decreases |s|
  {
    assert StepLaw(dec, s);
    var d := dec(s);
    var rest := s[d.drop..];
    if d.verdict.Accepted? {
      DrainConserves(dec, rest);
      var p := Drain(dec, rest);
      ContinueAssociates(Parsed([d.verdict.msg], []), p, Scan(dec, p.rest));
    } else if d.verdict.Waiting? {
      assert rest[0..] == rest;
    }
  }

  /** Conservation on EVERY byte stream and every cutting: what was delivered, followed by
      what the buffer still holds, is the parse of the whole stream, in order. */
  lemma {:induction false} RoundsConserve<M>(dec: Decoder<M>, buffered: Bytes, pieces: seq<Bytes>)
    requires Lawful(dec)
    ensures Scan(dec, buffered + Flatten(pieces))
         == Continue(Rounds(dec, buffered, pieces), Scan(dec, Rounds(dec, buffered, pieces).rest))
    decreases |pieces|
  {
    if pieces == [] {
      assert buffered + Flatten(pieces) == buffered;
    } else {
      var now, later := buffered + pieces[0], Flatten(pieces[1..]);
      var d := Drain(dec, now);
      var p := Rounds(dec, d.rest, pieces[1..]);
      assert buffered + Flatten(pieces) == now + later;
      RoundsConserve(dec, d.rest, pieces[1..]);
      ContinueAssociates(d, p, Scan(dec, p.rest));
      DrainThenScan(dec, now, later);
    }
  }

  lemma DrainThenScan<M>(dec: Decoder<M>, a: Bytes, b: Bytes)
    requires Lawful(dec)
    ensures Scan(dec, a + b) == Continue(Drain(dec, a), Scan(dec, Drain(dec, a).rest + b))
  {
    var d := Drain(dec, a);
    var u := Scan(dec, d.rest);
    ScanAppend(dec, a, b);
    DrainConserves(dec, a);
    ScanAppend(dec, d.rest, b);
    ContinueAssociates(d, u, Scan(dec, u.rest + b));
  }

  /** One round more. */
  lemma {:induction false} RoundsAppend<M>(dec: Decoder<M>, buffered: Bytes, pieces: seq<Bytes>, piece: Bytes)
    requires Lawful(dec)
    ensures Rounds(dec, buffered, pieces + [piece]) ==
            var r := Rounds(dec, buffered, pieces);
            Continue(r, Drain(dec, r.rest + piece))
    decreases |pieces|
  {
    if pieces == [] {
      assert (pieces + [piece])[1..] == [] && pieces + [piece] == [piece];
      assert Rounds(dec, Drain(dec, buffered + piece).rest, []).msgs == [];
    } else {
      var d := Drain(dec, buffered + pieces[0]);
      var r := Rounds(dec, d.rest, pieces[1..]);
      RoundsAppend(dec, d.rest, pieces[1..], piece);
      assert (pieces + [piece])[1..] == pieces[1..] + [piece];
      ContinueAssociates(d, r, Drain(dec, r.rest + piece));
    }
  }

  lemma {:induction false} DrainShortens<M>(dec: Decoder<M>, s: Bytes)
    requires Lawful(dec)
    ensures |Drain(dec, s).rest| <= |s|
    decreases |s|
  {
    assert StepLaw(dec, s);
    if dec(s).verdict.Accepted? {
      DrainShortens(dec, s[dec(s).drop..]);
    }
  }

  /** Fragmentation independence: on a clean stream every cutting delivers exactly the parsed
      messages and leaves exactly the undecoded tail. */
  lemma {:induction false} FragmentationIndependence<M>(dec: Decoder<M>, buffered: Bytes, pieces: seq<Bytes>)
    requires Lawful(dec)
    requires Settled(dec, buffered) && Clean(dec, buffered + Flatten(pieces))
    ensures Rounds(dec, buffered, pieces) == Scan(dec, buffered + Flatten(pieces))
    decreases |pieces|
  {
    if pieces == [] {
      assert buffered + Flatten(pieces) == buffered;
      assert buffered[0..] == buffered;
    } else {
      var now, later := buffered + pieces[0], Flatten(pieces[1..]);
      assert buffered + Flatten(pieces) == now + later;
      ScanAppend(dec, now, later);
      DrainConserves(dec, now);
      ScanRestSettled(dec, now);
      FragmentationIndependence(dec, Scan(dec, now).rest, pieces[1..]);
    }
  }

  // ----- streams that are not clean -----

  /** Delivering all at once never delivers more than delivering in pieces. */
  lemma {:induction false} DrainAppend<M>(dec: Decoder<M>, a: Bytes, b: Bytes)
    requires Lawful(dec)
    ensures Drain(dec, a + b).msgs <= Drain(dec, a).msgs + Drain(dec, Drain(dec, a).rest + b).msgs
    decreases |a|
  {
    assert StepLaw(dec, a) && AppendLaw(dec, a, b);
    var d := dec(a);
    var t := a[d.drop..] + b;
    assert (a + b)[d.drop..] == t;
    if d.verdict.Accepted? {
      DrainAppend(dec, a[d.drop..], b);
      var p := Drain(dec, a[d.drop..]);
      ContinueAssociates(Parsed([d.verdict.msg], []), p, Drain(dec, p.rest + b));
    } else if d.verdict.Waiting? {
      assert StepLaw(dec, t);
      var e := dec(t);
      assert (a + b)[d.drop + e.drop..] == t[e.drop..];
    }
  }

  lemma {:induction false} OneRoundIsLeast<M>(dec: Decoder<M>, buffered: Bytes, pieces: seq<Bytes>)
    requires Lawful(dec) && pieces != []
    ensures Drain(dec, buffered + Flatten(pieces)).msgs <= Rounds(dec, buffered, pieces).msgs
    decreases |pieces|
  {
    var now, later := buffered + pieces[0], Flatten(pieces[1..]);
    assert buffered + Flatten(pieces) == now + later;
    var d := Drain(dec, now);
    if |pieces| == 1 {
      assert now + later == now;
    } else {
      DrainAppend(dec, now, later);
      OneRoundIsLeast(dec, d.rest, pieces[1..]);
    }
  }

  /** Exactly when the cutting does not matter: when one round over the whole stream leaves no
      message behind, that is, when no message follows malformed bytes. */
  lemma FragmentationMatters<M>(dec: Decoder<M>, s: Bytes)
    requires Lawful(dec)
    ensures Scan(dec, Drain(dec, s).rest).msgs == []
       <==> forall pieces: seq<Bytes> :: pieces != [] && Flatten(pieces) == s
              ==> Rounds(dec, [], pieces).msgs == Scan(dec, s).msgs
  {
    DrainConserves(dec, s);
    if Scan(dec, Drain(dec, s).rest).msgs == [] {
      forall pieces: seq<Bytes> | pieces != [] && Flatten(pieces) == s
        ensures Rounds(dec, [], pieces).msgs == Scan(dec, s).msgs
      {
        assert [] + Flatten(pieces) == s;
        OneRoundIsLeast(dec, [], pieces);
        RoundsConserve(dec, [], pieces);
      }
    } else {
      OneRound(dec, s);
    }
  }

  lemma OneRound<M>(dec: Decoder<M>, s: Bytes)
    requires Lawful(dec)
    ensures Flatten([s]) == s && Rounds(dec, [], [s]) == Drain(dec, s)
  {
    assert [] + s == s && [s][1..] == [];
    assert Flatten([s]) == s + [];
  }

  lemma {:induction false} FlattenSplit(pieces: seq<Bytes>, k: nat)
    requires k <= |pieces|
    ensures Flatten(pieces) == Flatten(pieces[..k]) + Flatten(pieces[k..])
    decreases k
  {
    if k == 0 {
      assert pieces[0..] == pieces && pieces[..0] == [];
    } else {
      FlattenSplit(pieces[1..], k - 1);
      assert pieces[..k][1..] == pieces[1..][..k - 1];
      assert pieces[1..][k - 1..] == pieces[k..];
    }
  }

  lemma FlattenAppend(pieces: seq<Bytes>, piece: Bytes)
    ensures Flatten(pieces + [piece]) == Flatten(pieces) + piece
  {
    var all := pieces + [piece];
    FlattenSplit(all, |pieces|);
    assert all[..|pieces|] == pieces && all[|pieces|..] == [piece] && [piece][1..] == [];
    assert Flatten([piece]) == piece + [];
  }

  // ----- streams of packets -----

  /** Bytes that were sent to carry one message. */
  datatype Packet<+M> = Packet(bytes: Bytes, msg: M)

  /** Each packet by itself decodes to its message, all of it. */
  ghost predicate WellSent<M>(dec: Decoder<M>, packets: seq<Packet<M>>) {
    forall i :: 0 <= i < |packets| ==> dec(packets[i].bytes) == Step(Accepted(packets[i].msg), |packets[i].bytes|)
  }

  function Messages<M>(packets: seq<Packet<M>>): (ms: seq<M>)
    ensures |ms| == |packets|
    ensures forall i :: 0 <= i < |packets| ==> ms[i] == packets[i].msg
  {
    if packets == [] then [] else [packets[0].msg] + Messages(packets[1..])
  }

  function Wire<M>(packets: seq<Packet<M>>, tail: Bytes): Bytes
  {
    if packets == [] then tail else packets[0].bytes + Wire(packets[1..], tail)
  }

  lemma FirstPacket<M>(dec: Decoder<M>, packet: Packet<M>, more: Bytes)
    requires Lawful(dec) && dec(packet.bytes) == Step(Accepted(packet.msg), |packet.bytes|)
    ensures Clean(dec, packet.bytes + more) <==> Clean(dec, more)
    ensures Scan(dec, packet.bytes + more) == Continue(Parsed([packet.msg], []), Scan(dec, more))
  {
    assert AppendLaw(dec, packet.bytes, more);
    assert (packet.bytes + more)[|packet.bytes|..] == more;
  }

  lemma OnePacket<M>(dec: Decoder<M>, s: Bytes, m: M)
    requires Lawful(dec) && dec(s) == Step(Accepted(m), |s|)
    ensures Drain(dec, s) == Scan(dec, s) == Parsed([m], []) && Clean(dec, s)
  {
    assert StepLaw(dec, s) && StepLaw(dec, []);
    assert s[|s|..] == [];
    assert Drain(dec, []) == Scan(dec, []) == Parsed([], []);
  }

  /** A stream of packets parses to exactly its messages. */
  lemma {:induction false} WireScan<M>(dec: Decoder<M>, packets: seq<Packet<M>>, tail: Bytes)
    requires Lawful(dec) && WellSent(dec, packets) && dec(tail).verdict.Waiting?
    ensures Clean(dec, Wire(packets, tail))
    ensures Scan(dec, Wire(packets, tail)) == Parsed(Messages(packets), Scan(dec, tail).rest)
    decreases |packets|
  {
    if packets != [] {
      FirstPacket(dec, packets[0], Wire(packets[1..], tail));
      WireScan(dec, packets[1..], tail);
    }
  }

  /** An incomplete packet is not taken for anything else. */
  lemma PartWaits<M>(dec: Decoder<M>, part: Bytes, missing: Bytes)
    requires Lawful(dec)
    requires dec(part + missing).verdict.Waiting? || (dec(part + missing).drop == |part + missing| && missing != []
                                                      && dec(part + missing).verdict.Accepted?)
    ensures dec(part).verdict.Waiting?
  {
    assert StepLaw(dec, part) && AppendLaw(dec, part, missing);
  }

  lemma NoWire<M>(tail: Bytes)
    ensures Wire<M>([], tail) == tail
  {
  }

  lemma WireMore<M>(packets: seq<Packet<M>>, tail: Bytes)
    requires packets != []
    ensures Wire(packets, tail) == packets[0].bytes + Wire(packets[1..], tail)
  {
  }

  lemma {:induction false} MessagesMore<M>(packets: seq<Packet<M>>, k: nat)
    requires packets != [] && k < |packets|
    ensures Messages(packets)[..k + 1] == [packets[0].msg] + Messages(packets[1..])[..k]
  {
    var first, rest := [packets[0].msg], Messages(packets[1..]);
    assert Messages(packets) == first + rest;
    hide Messages;
    assert (first + rest)[..k + 1] == first + rest[..k];
  }

  /** A stream cut at any point: the packets complete so far are parsed, the next is not. */
  lemma {:induction false} PartOfWire<M>(dec: Decoder<M>, packets: seq<Packet<M>>, tail: Bytes,
                                         got: Bytes, coming: Bytes)
      returns (k: nat, part: Bytes)
    requires Lawful(dec) && WellSent(dec, packets) && dec(tail).verdict.Waiting?
    requires got + coming == Wire(packets, tail)
    ensures k <= |packets| && if k < |packets| then part < packets[k].bytes else part <= tail
    ensures dec(part).verdict.Waiting? && dec(part).drop <= |part|
    ensures Clean(dec, got) && Scan(dec, got) == Parsed(Messages(packets)[..k], part[dec(part).drop..])
    decreases |packets|
  {
    hide Messages, Wire;
    if packets == [] {
      NoWire<M>(tail);
      k, part := 0, got;
      PartWaits(dec, got, coming);
      assert StepLaw(dec, got);
    } else {
      var first, more := packets[0], Wire(packets[1..], tail);
      var n := |first.bytes|;
      WireMore(packets, tail);
      if |got| >= n {
        var later := got[n..];
        assert got[..n] == (got + coming)[..n] == first.bytes;
        assert got == first.bytes + later;
        assert later + coming == (got + coming)[n..] == more;
        k, part := PartOfWire(dec, packets[1..], tail, later, coming);
        FirstPacket(dec, first, later);
        MessagesMore(packets, k);
        k := k + 1;
      } else {
        k, part := 0, got;
        var missing := first.bytes[|got|..];
        assert got == (got + coming)[..|got|] == first.bytes[..|got|];
        assert got + missing == first.bytes;
        PartWaits(dec, got, missing);
        assert StepLaw(dec, got);
      }
    }
  }

  /** Any packets, any cutting into reads: after every round exactly the complete packets have been
      delivered, in order, and the buffer holds what is left of the next; in the end all are. */
  lemma WireDelivery<M>(dec: Decoder<M>, packets: seq<Packet<M>>, tail: Bytes, pieces: seq<Bytes>, rounds: nat)
      returns (k: nat, part: Bytes)
    requires Lawful(dec) && WellSent(dec, packets) && dec(tail).verdict.Waiting?
    requires Flatten(pieces) == Wire(packets, tail) && rounds <= |pieces|
    ensures k <= |packets| && if k < |packets| then part < packets[k].bytes else part <= tail
    ensures dec(part).verdict.Waiting? && dec(part).drop <= |part|
    ensures Rounds(dec, [], pieces[..rounds]) == Parsed(Messages(packets)[..k], part[dec(part).drop..])
    ensures Rounds(dec, [], pieces) == Parsed(Messages(packets), Scan(dec, tail).rest)
  {
    var got, coming := Flatten(pieces[..rounds]), Flatten(pieces[rounds..]);
    FlattenSplit(pieces, rounds);
    k, part := PartOfWire(dec, packets, tail, got, coming);
    assert StepLaw(dec, []);
    assert [] + got == got && [] + Flatten(pieces) == Flatten(pieces);
    FragmentationIndependence(dec, [], pieces[..rounds]);
    WireScan(dec, packets, tail);
    FragmentationIndependence(dec, [], pieces);
  }
}
