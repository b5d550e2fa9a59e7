/** Streams of RPC frames: for any messages, any stray bytes between their frames and any
    cutting into reads, the connection sees exactly the messages that were sent. */
module RpcStream {
  import opened Bytes
  import opened Streams
  import opened RpcFrame

  /** A frame on the wire and the stray bytes in front of it. */
  datatype Item = Item(noise: Bytes, msg: Msg)

  ghost predicate WellFormed(items: seq<Item>) {
    forall i :: 0 <= i < |items| ==> Canonical(items[i].msg) && PACKET_START !in items[i].noise
  }

  ghost function Packets(items: seq<Item>): (ps: seq<Packet<Msg>>)
    requires WellFormed(items)
    ensures |ps| == |items|
  {
    seq(|items|, i requires 0 <= i < |items| =>
      Packet(items[i].noise + Frame(items[i].msg), items[i].msg))
  }

  lemma NoiseThen(noise: Bytes, t: Bytes)
    requires PACKET_START !in noise
    ensures var d := DecodeStep(t); DecodeStep(noise + t) == Step(d.verdict, |noise| + d.drop)
  {
    NoStartFrom(noise, 0);
    StartAppend(noise, t);
    ResyncBehindNoise(DecodeFrame, noise, t);
  }

  lemma PacketsDecode(items: seq<Item>)
    requires WellFormed(items)
    ensures WellSent(DecodeStep, Packets(items))
  {
    forall i | 0 <= i < |items|
      ensures DecodeStep(Packets(items)[i].bytes) == Step(Accepted(items[i].msg), |Packets(items)[i].bytes|)
    {
      var f := Frame(items[i].msg);
      RoundTrip(items[i].msg, []);
      assert f + [] == f;
      NoiseThen(items[i].noise, f);
    }
  }

  lemma NoiseWaits(noise: Bytes)
    requires PACKET_START !in noise
    ensures DecodeStep(noise) == Step(Waiting, |noise|)
  {
    assert noise + [] == noise;
    NoiseThen(noise, []);
  }

  /** What is left of an incomplete packet is nothing or the beginning of its frame. */
  lemma RestOfPart(noise: Bytes, f: Bytes, part: Bytes)
    requires PACKET_START !in noise && part < noise + f && DecodeStep(part).verdict.Waiting?
    requires f != [] && f[0] == PACKET_START
    ensures part[DecodeStep(part).drop..] < f
  {
    if |part| <= |noise| {
      assert part == noise[..|part|];
      NoiseWaits(part);
    } else {
      var t := part[|noise|..];
      assert part == noise + t && t < f;
      NoiseThen(noise, t);
      StepAtStart(t);
    }
  }

  /** The headline: frames with start-free bytes between and behind them, cut into reads in any
      way.  After every round exactly the complete messages have been delivered, in order, and the
      buffer is empty or holds the beginning of the next frame; in the end all are delivered. */
  lemma RpcDelivery(items: seq<Item>, tail: Bytes, pieces: seq<Bytes>, rounds: nat) returns (k: nat)
    requires WellFormed(items) && PACKET_START !in tail
    requires Flatten(pieces) == Wire(Packets(items), tail) && rounds <= |pieces|
    ensures Lawful(DecodeStep) && k <= |items|
    ensures var p := Rounds(DecodeStep, [], pieces[..rounds]);
      && p.msgs == Messages(Packets(items))[..k]
      && if k < |items| then p.rest < Frame(items[k].msg) else p.rest == []
    ensures Rounds(DecodeStep, [], pieces) == Parsed(Messages(Packets(items)), [])
  {
    DecoderIsLawful();
    PacketsDecode(items);
    NoiseWaits(tail);
    var part: Bytes;
    k, part := WireDelivery(DecodeStep, Packets(items), tail, pieces, rounds);
    if k < |items| {
      RestOfPart(items[k].noise, Frame(items[k].msg), part);
    } else {
      NoiseWaits(part);
    }
  }

  // ----- a stream that is not clean -----

  /** A start byte and a length word that no packet can have. */
  const BAD_BYTES: Bytes := [PACKET_START] + EncodeInt32(0)

  lemma BadIsMalformed(more: Bytes)
    ensures DecodeStep(BAD_BYTES + more) == Step(Malformed, 1) && (BAD_BYTES + more)[1..] == EncodeInt32(0) + more
  {
    var t := BAD_BYTES + more;
    Int32RoundTrip(0);
    assert t[1..5] == EncodeInt32(0);
    StepAtStart(t);
  }

  lemma BehindBad(m: Msg)
    requires Canonical(m)
    ensures DecodeStep(EncodeInt32(0) + Frame(m)) == Step(Accepted(m), |EncodeInt32(0) + Frame(m)|)
  {
    var f := Frame(m);
    RoundTrip(m, []);
    assert f + [] == f;
    NoStartInZero();
    hide EncodeInt32, Frame, DecodeStep, Canonical;
    NoiseThen(EncodeInt32(0), f);
  }

  lemma NoStartInZero()
    ensures PACKET_START !in EncodeInt32(0)
  {
  }

  /** Where the cutting matters: a message behind malformed bytes is not delivered if all arrives
      at once, and is delivered if it arrives by itself. */
  lemma CuttingDelays(m: Msg)
    requires Canonical(m)
    ensures Lawful(DecodeStep)
    ensures var s := BAD_BYTES + Frame(m);
      && Rounds(DecodeStep, [], [s]) == Parsed([], EncodeInt32(0) + Frame(m))
      && Rounds(DecodeStep, [], [BAD_BYTES, Frame(m)]) == Parsed([m], [])
      && Scan(DecodeStep, Drain(DecodeStep, s).rest) == Parsed([m], [])
  {
    hide DecodeStep, Frame;
    DecoderIsLawful();
    var f, word := Frame(m), EncodeInt32(0);
    BadIsMalformed(f);
    BadIsMalformed([]);
    BehindBad(m);
    OneRound(DecodeStep, BAD_BYTES + f);
    assert StepLaw(DecodeStep, []);
    assert (word + f)[|word + f|..] == [] && [] + BAD_BYTES == BAD_BYTES + [] == BAD_BYTES && word + [] == word;
    hide Canonical;
    var pieces: seq<Bytes> := [BAD_BYTES, f];
    assert pieces[1..] == [f] && pieces[1..][1..] == [];
    assert Drain(DecodeStep, word + f) == Parsed([m], []);
    assert Drain(DecodeStep, BAD_BYTES) == Parsed([], word);
    assert Rounds(DecodeStep, word, pieces[1..]) == Parsed([m], []);
  }
}
