/** The wire format of an RPC message: what a frame is, and what one decoding
    attempt makes of the readable bytes.  The imperative codec is proved against
    these two definitions, and they are proved inverse to each other. */
module RpcFrame {
  import opened Bytes
  import opened Streams

  const PACKET_START: Byte := '\U{0002}'
  const PACKET_END: Byte := '\U{0003}'
  const CHECKSUM_PLACEHOLDER: Int32 := 1
  const MIN_PACKET_LEN: nat := 26
  const MAX_PACKET_LEN: nat := 16 * 1024 * 1024

  datatype Msg = Msg(msgNo: Bytes, serviceName: Bytes, methodName: Bytes, pbData: Bytes, errCode: Int32, errInfo: Bytes)

  function FullName(m: Msg): Bytes {
    m.serviceName + "." + m.methodName
  }

  function PacketLen(m: Msg): nat {
    MIN_PACKET_LEN + |m.msgNo| + |FullName(m)| + |m.errInfo| + |m.pbData|
  }

  /** What `encodePbData` accepts. */
  predicate Encodable(m: Msg) {
    m.serviceName != [] && m.methodName != [] && PacketLen(m) <= MAX_PACKET_LEN
  }

  /** Encodable and recoverable: a number to answer to, and a method without dots. */
  predicate Canonical(m: Msg) {
    Encodable(m) && m.msgNo != [] && '.' !in m.methodName
  }

  /** A 4-byte length and that many bytes. */
  function Field(v: Bytes): (b: Bytes)
    requires |v| <= MAX_PACKET_LEN
    ensures |b| == 4 + |v|
  {
    EncodeInt32(|v|) + v
  }

  /** The frame of a message, field by field. */
  function Frame(m: Msg): (f: Bytes)
    requires PacketLen(m) <= MAX_PACKET_LEN
    ensures |f| == PacketLen(m)
    ensures f[0] == PACKET_START
  {
    [PACKET_START] + EncodeInt32(PacketLen(m)) + Field(m.msgNo) + Field(FullName(m)) + EncodeInt32(m.errCode)
    + Field(m.errInfo) + m.pbData + EncodeInt32(CHECKSUM_PLACEHOLDER) + [PACKET_END]
  }

  // ----- reading one frame -----

  /** `ReadInt32` followed by `ReadString`: the bytes and the position behind them. */
  function ReadField(f: Bytes, i: nat, limit: nat): (r: Option<(Bytes, nat)>)
    requires limit <= |f|
    ensures r.Some? ==> i + 4 + |r.value.0| == r.value.1 <= limit
  {
    if limit < i + 4 then None
    else
      var n := DecodeInt32(f[i..i + 4]);
      if n < 0 || n > limit - i - 4 then None else Some((f[i + 4..i + 4 + n], i + 4 + n))
  }

  /** `rfind('.')`, or -1. */
  function LastDot(s: Bytes): (i: int)
    ensures -1 <= i < |s|
    ensures i >= 0 ==> s[i] == '.'
    ensures forall j :: i < j < |s| ==> s[j] != '.'
  {
    if s == [] then -1
    else if s[|s| - 1] == '.' then |s| - 1
    else LastDot(s[..|s| - 1])
  }

  /** Service and method around the last dot; both have to be there. */
  function SplitName(full: Bytes): Option<(Bytes, Bytes)> {
    var dot := LastDot(full);
    if dot <= 0 || dot + 1 >= |full| then None else Some((full[..dot], full[dot + 1..]))
  }

  /** The variable part of a frame, with the positions behind its first three fields. */
  datatype Fields = Fields(msgNo: Bytes, c1: nat, full: Bytes, c2: nat, errInfo: Bytes, c3: nat)

  function ParseFields(f: Bytes): (r: Option<Fields>)
    requires MIN_PACKET_LEN <= |f|
    ensures r.Some? ==> r.value.c2 + 8 <= r.value.c3 <= |f| - 5
  {
    var limit := |f| - 5;
    match ReadField(f, 5, limit)
    case None => None
    case Some((msgNo, c1)) =>
      if msgNo == [] then None else
      match ReadField(f, c1, limit)
      case None => None
      case Some((full, c2)) =>
        if full == [] || limit < c2 + 4 then None else
        match ReadField(f, c2 + 4, limit)
        case None => None
        case Some((errInfo, c3)) => Some(Fields(msgNo, c1, full, c2, errInfo, c3))
  }

  /** The content of a complete frame whose length word and end byte were checked. */
  function ParseFrame(f: Bytes): Option<Msg>
    requires MIN_PACKET_LEN <= |f|
  {
    var limit := |f| - 5;
    match ParseFields(f)
    case None => None
    case Some(p) =>
      match SplitName(p.full)
      case None => None
      case Some((service, name)) =>
        if DecodeInt32(f[limit..limit + 4]) != CHECKSUM_PLACEHOLDER then None
        else Some(Msg(p.msgNo, service, name, f[p.c3..limit], DecodeInt32(f[p.c2..p.c2 + 4]), p.errInfo))
  }

  /** Position of the first start byte at or behind `i`, or the length. */
  function StartFrom(s: Bytes, i: nat): (k: nat)
    requires i <= |s|
    ensures i <= k <= |s|
    ensures k < |s| ==> s[k] == PACKET_START
    decreases |s| - i
  {
    if i == |s| || s[i] == PACKET_START then i else StartFrom(s, i + 1)
  }

  function StartOf(s: Bytes): (k: nat)
    ensures k <= |s|
  {
    StartFrom(s, 0)
  }

  /** The attempt on bytes that begin with a start byte. */
  function DecodeFrame(t: Bytes): (d: Step<Msg>)
    ensures d.drop <= |t|
    ensures d.verdict.Waiting? ==> d.drop == 0 && |t| < MAX_PACKET_LEN
    ensures d.verdict.Malformed? ==> d.drop > 0
  {
    if |t| < 5 then Step(Waiting, 0)
    else
      var n := DecodeInt32(t[1..5]);
      if n < MIN_PACKET_LEN || n > MAX_PACKET_LEN then Step(Malformed, 1)
      else if |t| < n then Step(Waiting, 0)
      else if t[n - 1] != PACKET_END then Step(Malformed, 1)
      else match ParseFrame(t[..n])
        case None => Step(Malformed, n)
        case Some(m) => Step(Accepted(m), n)
  }

  /** Skips the noise, then attempts to decode. */
  function Resync(attempt: Decoder<Msg>, s: Bytes): Step<Msg> {
    var k := StartOf(s);
    var d := attempt(s[k..]);
    Step(d.verdict, k + d.drop)
  }

  /** The whole attempt. */
  function DecodeStep(s: Bytes): (d: Step<Msg>)
    ensures d.drop <= |s|
  {
    Resync(DecodeFrame, s)
  }

  // ----- the two directions are inverse -----

  lemma SplitJoin(service: Bytes, name: Bytes)
    requires service != [] && name != []
    ensures SplitName(service + "." + name) == Some((service, name)) <==> '.' !in name
  {
    var full := service + "." + name;
    var dot := LastDot(full);
    assert full[|service|] == '.';
    assert dot >= |service|;
    if dot > |service| {
      assert full[dot] == name[dot - |service| - 1];
    } else {
      assert full[..dot] == service && full[dot + 1..] == name;
    }
  }

  lemma Peel(f: Bytes, n: nat, q: Bytes, y: Bytes)
    requires n <= |f| && f[..n] == q + y
    ensures f[..|q|] == q && f[|q|..n] == y
  {
    assert f[..|q|] == f[..n][..|q|];
    assert f[|q|..n] == f[..n][|q|..];
  }

  lemma Join(f: Bytes, k: nat, n: nat, q: Bytes, y: Bytes)
    requires k <= n <= |f| && f[..k] == q && f[k..n] == y
    ensures f[..n] == q + y
  {
    assert f[..n] == f[..k] + f[k..n];
  }

  /** A length word and the bytes it announces. */
  ghost predicate FieldAt(f: Bytes, i: nat, v: Bytes) {
    i + 4 + |v| <= |f| && DecodeInt32(f[i..i + 4]) == |v| && f[i + 4..i + 4 + |v|] == v
  }

  /** `f` carries, at the offsets that follow from their lengths, the fields of `m`. */
  ghost predicate Layout(f: Bytes, m: Msg, c1: nat, c2: nat, c3: nat)
  {
    && PacketLen(m) <= MAX_PACKET_LEN && |f| == PacketLen(m)
    && c1 == 9 + |m.msgNo| && c2 == c1 + 4 + |FullName(m)| && c3 == c2 + 8 + |m.errInfo|
    && c3 + |m.pbData| + 5 == |f|
    && f[0] == PACKET_START && DecodeInt32(f[1..5]) == |f|
    && FieldAt(f, 5, m.msgNo) && FieldAt(f, c1, FullName(m))
    && DecodeInt32(f[c2..c2 + 4]) == m.errCode && FieldAt(f, c2 + 4, m.errInfo)
    && f[c3..|f| - 5] == m.pbData && DecodeInt32(f[|f| - 5..|f| - 1]) == CHECKSUM_PLACEHOLDER
    && f[|f| - 1] == PACKET_END
  }

  lemma FieldAtOfSlice(f: Bytes, i: nat, v: Bytes)
    requires |v| <= MAX_PACKET_LEN && i + 4 + |v| <= |f| && f[i..i + 4 + |v|] == Field(v)
    ensures FieldAt(f, i, v)
  {
    var j := i + 4 + |v|;
    assert f[i..i + 4] == f[i..j][..4] == EncodeInt32(|v|);
    assert f[i + 4..j] == f[i..j][4..] == v;
    Int32RoundTrip(|v|);
  }

  lemma SliceOfFieldAt(f: Bytes, i: nat, v: Bytes)
    requires |v| <= MAX_PACKET_LEN && FieldAt(f, i, v)
    ensures f[i..i + 4 + |v|] == Field(v)
  {
    Int32Canonical(f[i..i + 4]);
    assert f[i..i + 4 + |v|] == f[i..i + 4] + f[i + 4..i + 4 + |v|];
  }

  lemma FrameLayout(m: Msg) returns (c1: nat, c2: nat, c3: nat)
    requires PacketLen(m) <= MAX_PACKET_LEN
    ensures Layout(Frame(m), m, c1, c2, c3)
  {
    var f := Frame(m);
    var q1 := [PACKET_START];
    var q2 := q1 + EncodeInt32(PacketLen(m));
    var q3 := q2 + Field(m.msgNo);
    var q4 := q3 + Field(FullName(m));
    var q5 := q4 + EncodeInt32(m.errCode);
    var q6 := q5 + Field(m.errInfo);
    var q7 := q6 + m.pbData;
    var q8 := q7 + EncodeInt32(CHECKSUM_PLACEHOLDER);
    assert f[..|f|] == f;
    Peel(f, |f|, q8, [PACKET_END]);
    Peel(f, |q8|, q7, EncodeInt32(CHECKSUM_PLACEHOLDER));
    Peel(f, |q7|, q6, m.pbData);
    Peel(f, |q6|, q5, Field(m.errInfo));
    Peel(f, |q5|, q4, EncodeInt32(m.errCode));
    Peel(f, |q4|, q3, Field(FullName(m)));
    Peel(f, |q3|, q2, Field(m.msgNo));
    Peel(f, |q2|, q1, EncodeInt32(PacketLen(m)));
    c1, c2, c3 := |q3|, |q4|, |q6|;
    LayoutOfSlices(f, m, c1, c2, c3);
  }

  lemma LayoutOfSlices(f: Bytes, m: Msg, c1: nat, c2: nat, c3: nat)
    requires PacketLen(m) <= MAX_PACKET_LEN && |f| == PacketLen(m)
    requires c1 == 9 + |m.msgNo| && c2 == c1 + 4 + |FullName(m)| && c3 == c2 + 8 + |m.errInfo|
    requires f[0] == PACKET_START && f[1..5] == EncodeInt32(|f|)
    requires f[5..c1] == Field(m.msgNo) && f[c1..c2] == Field(FullName(m))
    requires f[c2..c2 + 4] == EncodeInt32(m.errCode) && f[c2 + 4..c3] == Field(m.errInfo)
    requires f[c3..|f| - 5] == m.pbData && f[|f| - 5..|f| - 1] == EncodeInt32(CHECKSUM_PLACEHOLDER)
    requires f[|f| - 1..] == [PACKET_END]
    ensures Layout(f, m, c1, c2, c3)
  {
    FieldAtOfSlice(f, 5, m.msgNo);
    FieldAtOfSlice(f, c1, FullName(m));
    FieldAtOfSlice(f, c2 + 4, m.errInfo);
    Int32RoundTrip(|f|);
    Int32RoundTrip(m.errCode);
    Int32RoundTrip(CHECKSUM_PLACEHOLDER);
    assert f[|f| - 1..][0] == f[|f| - 1];
  }

  lemma LayoutIsFrame(f: Bytes, m: Msg, c1: nat, c2: nat, c3: nat)
    requires Layout(f, m, c1, c2, c3)
    ensures f == Frame(m)
  {
    var q1 := [PACKET_START];
    var q2 := q1 + EncodeInt32(PacketLen(m));
    var q3 := q2 + Field(m.msgNo);
    var q4 := q3 + Field(FullName(m));
    var q5 := q4 + EncodeInt32(m.errCode);
    var q6 := q5 + Field(m.errInfo);
    var q7 := q6 + m.pbData;
    var q8 := q7 + EncodeInt32(CHECKSUM_PLACEHOLDER);
    LayoutSlices(f, m, c1, c2, c3);
    Join(f, 1, 5, q1, EncodeInt32(PacketLen(m)));
    Join(f, 5, c1, q2, Field(m.msgNo));
    Join(f, c1, c2, q3, Field(FullName(m)));
    Join(f, c2, c2 + 4, q4, EncodeInt32(m.errCode));
    Join(f, c2 + 4, c3, q5, Field(m.errInfo));
    Join(f, c3, |f| - 5, q6, m.pbData);
    Join(f, |f| - 5, |f| - 1, q7, EncodeInt32(CHECKSUM_PLACEHOLDER));
    Join(f, |f| - 1, |f|, q8, [PACKET_END]);
    assert f[..|f|] == f;
  }

  lemma LayoutSlices(f: Bytes, m: Msg, c1: nat, c2: nat, c3: nat)
    requires Layout(f, m, c1, c2, c3)
    ensures f[..1] == [PACKET_START] && f[1..5] == EncodeInt32(|f|)
    ensures f[5..c1] == Field(m.msgNo) && f[c1..c2] == Field(FullName(m))
    ensures f[c2..c2 + 4] == EncodeInt32(m.errCode) && f[c2 + 4..c3] == Field(m.errInfo)
    ensures f[|f| - 5..|f| - 1] == EncodeInt32(CHECKSUM_PLACEHOLDER)
    ensures f[|f| - 1..|f|] == [PACKET_END]
  {
    SliceOfFieldAt(f, 5, m.msgNo);
    SliceOfFieldAt(f, c1, FullName(m));
    SliceOfFieldAt(f, c2 + 4, m.errInfo);
    Int32Canonical(f[1..5]);
    Int32Canonical(f[c2..c2 + 4]);
    Int32Canonical(f[|f| - 5..|f| - 1]);
  }

  lemma FieldsOfLayout(f: Bytes, m: Msg, c1: nat, c2: nat, c3: nat)
    requires Layout(f, m, c1, c2, c3)
    ensures ParseFields(f) == if m.msgNo == [] then None
                              else Some(Fields(m.msgNo, c1, FullName(m), c2, m.errInfo, c3))
  {
  }

  /** Reading the frame of a message gives the fields back, the name split at its last dot. */
  lemma ParseOfFrame(m: Msg)
    requires Encodable(m)
    ensures m.msgNo == [] ==> ParseFrame(Frame(m)).None?
    ensures m.msgNo != [] ==>
      ParseFrame(Frame(m)) == match SplitName(FullName(m))
                              case None => None
                              case Some((s, n)) => Some(m.(serviceName := s, methodName := n))
  {
    var c1, c2, c3 := FrameLayout(m);
    ParseOfLayout(Frame(m), m, c1, c2, c3);
  }

  lemma ParseOfLayout(f: Bytes, m: Msg, c1: nat, c2: nat, c3: nat)
    requires Layout(f, m, c1, c2, c3)
    ensures ParseFrame(f) == if m.msgNo == [] then None
                             else match SplitName(FullName(m))
                               case None => None
                               case Some((s, n)) => Some(m.(serviceName := s, methodName := n))
  {
    FieldsOfLayout(f, m, c1, c2, c3);
  }

  /** A frame at the front of the buffer is taken whole, whatever follows. */
  lemma DecodeOfFrame(m: Msg, rest: Bytes)
    requires Encodable(m)
    ensures DecodeFrame(Frame(m) + rest) == match ParseFrame(Frame(m))
                                            case None => Step(Malformed, |Frame(m)|)
                                            case Some(r) => Step(Accepted(r), |Frame(m)|)
  {
    var f := Frame(m);
    var t := f + rest;
    assert t[1..5] == EncodeInt32(PacketLen(m));
    Int32RoundTrip(PacketLen(m));
    assert t[|f| - 1] == PACKET_END;
    assert t[..|f|] == f;
  }

  /** Decoding the encoding gives the message back exactly when it is canonical:
      a dot in the method name moves to the service, an empty number is refused. */
  lemma RoundTrip(m: Msg, rest: Bytes)
    requires Encodable(m)
    ensures DecodeStep(Frame(m) + rest) == Step(Accepted(m), |Frame(m)|) <==> Canonical(m)
  {
    var t := Frame(m) + rest;
    assert StartOf(t) == 0;
    assert t[0..] == t;
    DecodeOfFrame(m, rest);
    ParseOfFrame(m);
    SplitJoin(m.serviceName, m.methodName);
  }

  lemma JoinSplit(full: Bytes)
    requires SplitName(full).Some?
    ensures var (s, n) := SplitName(full).value; s != [] && n != [] && '.' !in n && s + "." + n == full
  {
    var dot := LastDot(full);
    assert full == full[..dot] + [full[dot]] + full[dot + 1..];
  }

  /** What `ParseFrame` reads lies at the offsets of the layout. */
  lemma ParsedLayout(f: Bytes)
    requires MIN_PACKET_LEN <= |f| <= MAX_PACKET_LEN
    requires f[0] == PACKET_START && DecodeInt32(f[1..5]) == |f| && f[|f| - 1] == PACKET_END
    requires ParseFrame(f).Some?
    ensures var p := ParseFields(f).value; Layout(f, ParseFrame(f).value, p.c1, p.c2, p.c3)
    ensures Canonical(ParseFrame(f).value)
  {
    JoinSplit(ParseFields(f).value.full);
  }

  /** An accepted frame is, byte for byte, the encoding of what it decoded to. */
  lemma Canonicity(t: Bytes)
    requires t != [] && t[0] == PACKET_START
    requires DecodeFrame(t).verdict.Accepted?
    ensures var d := DecodeFrame(t);
      Canonical(d.verdict.msg) && t[..d.drop] == Frame(d.verdict.msg)
  {
    var d := DecodeFrame(t);
    var f := t[..d.drop];
    assert f[1..5] == t[1..5];
    ParsedLayout(f);
    var p := ParseFields(f).value;
    LayoutIsFrame(f, d.verdict.msg, p.c1, p.c2, p.c3);
  }

  /** What a refusal costs: only bytes that have the form of a frame, with a possible length and the end
      byte where it belongs, are dropped as a whole; of anything else only the start byte goes, so that
      a frame behind it can still be found. */
  lemma RefusalDrops(t: Bytes)
    requires DecodeFrame(t).verdict.Malformed?
    ensures |t| >= 5
    ensures var n := DecodeInt32(t[1..5]);
            DecodeFrame(t).drop == if 26 <= n <= 16 * 1024 * 1024 && n <= |t| && t[n - 1] == '\U{0003}' then n else 1
  {
  }

  /** A frame, byte by byte: start, length, number, full name, error code, error text, payload,
      checksum, end. */
  lemma FrameExample()
    ensures var m := Msg("1", "S", "m", "x", 258, "e");
      && PacketLen(m) <= MAX_PACKET_LEN
      && Frame(m) == "\U{0002}\0\0\0 \0\0\0\U{0001}1\0\0\0\U{0003}S.m"
                     + "\0\0\U{0001}\U{0002}\0\0\0\U{0001}ex\0\0\0\U{0001}\U{0003}"
  {
    var m := Msg("1", "S", "m", "x", 258, "e");
    assert FullName(m) == "S.m" && PacketLen(m) == 32;
    Words();
    hide EncodeInt32;
    FieldBytes();
    hide Field, PacketLen, FullName;
    var head: Bytes := [PACKET_START] + EncodeInt32(32) + Field("1") + Field("S.m");
    assert head == "\U{0002}\0\0\0 \0\0\0\U{0001}1\0\0\0\U{0003}S.m";
    assert Frame(m) == head + EncodeInt32(258) + Field("e") + "x" + EncodeInt32(1) + [PACKET_END];
  }

  lemma FieldBytes()
    ensures Field("1") == "\0\0\0\U{0001}1" && Field("S.m") == "\0\0\0\U{0003}S.m"
    ensures Field("e") == "\0\0\0\U{0001}e"
  {
    Words();
    hide EncodeInt32;
  }

  lemma Words()
    ensures EncodeInt32(32) == ['\0', '\0', '\0', ' '] && EncodeInt32(1) == ['\0', '\0', '\0', '\U{0001}']
    ensures EncodeInt32(3) == ['\0', '\0', '\0', '\U{0003}']
    ensures EncodeInt32(258) == ['\0', '\0', '\U{0001}', '\U{0002}']
  {
  }

  /** A start byte and a length word: refused at once if and only if the length is out of bounds. */
  lemma LengthWord(n: Int32)
    ensures DecodeStep(['\U{0002}'] + EncodeInt32(n)) ==
            if n < 26 || n > 16 * 1024 * 1024 then Step(Malformed, 1) else Step(Waiting, 0)
  {
    var t := ['\U{0002}'] + EncodeInt32(n);
    Int32RoundTrip(n);
    assert t[1..5] == EncodeInt32(n);
    hide EncodeInt32, DecodeInt32;
    StepAtStart(t);
  }

  /** Progress and bound: an accepted frame is at least 30 bytes, a bad one at least one,
      and an attempt that removes nothing found an incomplete frame below the size limit. */
  lemma DecodeProgress(s: Bytes)
    ensures var d := DecodeStep(s);
      && (d.verdict.Accepted? ==> d.drop >= 30)
      && (d.verdict.Malformed? ==> d.drop >= 1)
      && (d.verdict.Waiting? ==>
            var rest := s[d.drop..];
            rest == [] || (rest[0] == PACKET_START && |rest| < MAX_PACKET_LEN && DecodeStep(rest) == Step(Waiting, 0)))
  {
    var k := StartOf(s);
    var t := s[k..];
    var d := DecodeFrame(t);
    if d.verdict.Accepted? {
      Canonicity(t);
    } else if d.verdict.Waiting? && t != [] {
      assert StartOf(t) == 0 && t[0..] == t;
    }
  }

  // ----- a verdict does not depend on what arrives later -----

  lemma {:induction false} StartFromAppend(a: Bytes, b: Bytes, i: nat)
    requires i <= |a|
    ensures StartFrom(a + b, i) == if StartFrom(a, i) < |a| then StartFrom(a, i) else StartFrom(a + b, |a|)
    decreases |a| - i
  {
    if i < |a| && a[i] != PACKET_START {
      StartFromAppend(a, b, i + 1);
    }
  }

  lemma {:induction false} StartFromShift(a: Bytes, b: Bytes, j: nat)
    requires j <= |b|
    ensures StartFrom(a + b, |a| + j) == |a| + StartFrom(b, j)
    decreases |b| - j
  {
    if j < |b| && b[j] != PACKET_START {
      StartFromShift(a, b, j + 1);
    }
  }

  lemma StartAppend(a: Bytes, b: Bytes)
    ensures StartOf(a + b) == if StartOf(a) < |a| then StartOf(a) else |a| + StartOf(b)
  {
    StartFromAppend(a, b, 0);
    StartFromShift(a, b, 0);
  }

  lemma FrameStable(t: Bytes, b: Bytes)
    requires !DecodeFrame(t).verdict.Waiting?
    ensures DecodeFrame(t + b) == DecodeFrame(t)
  {
    assert (t + b)[1..5] == t[1..5];
    var n := DecodeInt32(t[1..5]);
    if MIN_PACKET_LEN <= n <= MAX_PACKET_LEN {
      assert (t + b)[..n] == t[..n];
    }
  }

  lemma ResyncBehindNoise(attempt: Decoder<Msg>, noise: Bytes, t: Bytes)
    requires StartOf(noise + t) == |noise| + StartOf(t)
    ensures var d := Resync(attempt, t); Resync(attempt, noise + t) == Step(d.verdict, |noise| + d.drop)
  {
    DropBoth(noise, t, StartOf(t));
  }

  lemma DropBoth(noise: Bytes, t: Bytes, j: nat)
    requires j <= |t|
    ensures (noise + t)[|noise| + j..] == t[j..]
  {
  }

  lemma ResyncAt(attempt: Decoder<Msg>, s: Bytes, k: nat, t: Bytes)
    requires StartOf(s) == k && s[k..] == t
    ensures Resync(attempt, s) == Step(attempt(t).verdict, k + attempt(t).drop)
  {
  }

  /** The append law for an attempt that has it on bytes beginning with a start byte. */
  lemma ResyncAppend(attempt: Decoder<Msg>, a: Bytes, b: Bytes)
    requires attempt([]) == Step(Waiting, 0)
    requires var t := a[StartOf(a)..];
      if attempt(t).verdict.Waiting? then attempt(t).drop == 0 else attempt(t + b) == attempt(t)
    ensures var d := Resync(attempt, a);
      if d.verdict.Waiting? then
        d.drop <= |a| &&
        var e := Resync(attempt, a[d.drop..] + b);
        Resync(attempt, a + b) == Step(e.verdict, d.drop + e.drop)
      else Resync(attempt, a + b) == d
  {
    var k := StartOf(a);
    var t := a[k..];
    StartAppend(a, b);
    ResyncAt(attempt, a, k, t);
    if k == |a| {
      assert t + b == b;
      ResyncBehindNoise(attempt, a, b);
    } else {
      DropFirst(a, k, b);
      StartAppend(t, b);
      ResyncAt(attempt, a + b, k, t + b);
      ResyncAt(attempt, t + b, 0, t + b);
    }
  }

  lemma DropFirst(a: Bytes, k: nat, b: Bytes)
    requires k <= |a|
    ensures (a + b)[k..] == a[k..] + b && (a + b)[0..] == a + b
  {
  }

  lemma StepAtStart(t: Bytes)
    requires t != [] && t[0] == PACKET_START
    ensures DecodeStep(t) == DecodeFrame(t)
  {
    assert StartOf(t) == 0 && t[0..] == t;
  }

  lemma {:induction false} NoStartFrom(s: Bytes, i: nat)
    requires PACKET_START !in s && i <= |s|
    ensures StartFrom(s, i) == |s|
    decreases |s| - i
  {
    if i < |s| {
      NoStartFrom(s, i + 1);
    }
  }

  lemma StepAppend(a: Bytes, b: Bytes)
    ensures AppendLaw(DecodeStep, a, b)
  {
    var t := a[StartOf(a)..];
    if !DecodeFrame(t).verdict.Waiting? {
      FrameStable(t, b);
    }
    ResyncAppend(DecodeFrame, a, b);
  }

  /** The codec decides on what it has seen only; the stream theorems apply to it. */
  lemma DecoderIsLawful()
    ensures Lawful(DecodeStep)
  {
    forall s ensures StepLaw(DecodeStep, s) {
      DecodeProgress(s);
    }
    forall a, b ensures AppendLaw(DecodeStep, a, b) {
      StepAppend(a, b);
    }
  }
}
