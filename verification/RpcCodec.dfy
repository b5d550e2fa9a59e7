/** The imperative codec: frames are written through a cursor into a byte vector,
    and decoding reads the connection's buffer in place and recycles it. */
module RpcCodec {
  import opened Bytes
  import opened Streams
  import opened RpcFrame
  import opened TcpBuffers

  /** An RPC package in memory, filled by decoding and completed by encoding. */
  class RpcStruct {
    var msgNo: Bytes
    var serviceName: Bytes
    var methodName: Bytes
    var pbData: Bytes
    var errCode: Int32
    var errInfo: Bytes
    var decodeSucc: bool
    var encodeSucc: bool

    constructor ()
      ensures View() == Msg([], [], [], [], 0, [])
      ensures !decodeSucc && !encodeSucc
    {
      msgNo, serviceName, methodName, pbData, errInfo := [], [], [], [], [];
      errCode := 0;
      decodeSucc, encodeSucc := false, false;
    }

    function View(): Msg
      reads this
    {
      Msg(msgNo, serviceName, methodName, pbData, errCode, errInfo)
    }
  }

  // ----- encoding -----

  method WriteString(frame: array<Byte>, cursor: nat, value: Bytes) returns (next: nat)
    requires cursor + |value| <= frame.Length
    modifies frame
    ensures next == cursor + |value|
    ensures frame[..next] == old(frame[..cursor]) + value
  {
    forall i | 0 <= i < |value| {
      frame[cursor + i] := value[i];
    }
    next := cursor + |value|;
    assert frame[..cursor] == old(frame[..cursor]);
    assert frame[cursor..next] == value;
    assert frame[..next] == frame[..cursor] + frame[cursor..next];
  }

  method WriteInt32(frame: array<Byte>, cursor: nat, value: Int32) returns (next: nat)
    requires cursor + 4 <= frame.Length
    modifies frame
    ensures next == cursor + 4
    ensures frame[..next] == old(frame[..cursor]) + EncodeInt32(value)
  {
    next := WriteString(frame, cursor, EncodeInt32(value));
  }

  method WriteField(frame: array<Byte>, cursor: nat, value: Bytes) returns (next: nat)
    requires |value| <= MAX_PACKET_LEN && cursor + 4 + |value| <= frame.Length
    modifies frame
    ensures next == cursor + 4 + |value|
    ensures frame[..next] == old(frame[..cursor]) + Field(value)
  {
    next := WriteInt32(frame, cursor, |value|);
    next := WriteString(frame, next, value);
    assert old(frame[..cursor]) + EncodeInt32(|value|) + value == old(frame[..cursor]) + Field(value);
  }

  /** The message that goes out: `generated` stands for the number `genMsgNumber` would give. */
  function Numbered(m: Msg, generated: Bytes): Msg {
    if m.msgNo == [] then m.(msgNo := generated) else m
  }

  /** Whoever receives an encoded message reads the sender's number, or the generated one if the sender gave none. */
  lemma NumberArrives(m: Msg, generated: Bytes, rest: Bytes)
    requires generated != [] && '.' !in m.methodName && Encodable(Numbered(m, generated))
    ensures var frame := Frame(Numbered(m, generated));
            && (m.msgNo != [] ==> DecodeStep(frame + rest) == Step(Accepted(m), |frame|))
            && (m.msgNo == [] ==> DecodeStep(frame + rest) == Step(Accepted(m.(msgNo := generated)), |frame|))
  {
    RoundTrip(Numbered(m, generated), rest);
    hide DecodeStep, Frame;
  }

  method EncodePbData(data: RpcStruct, generated: Bytes) returns (ok: bool, frame: array<Byte>)
    modifies data
    ensures ok == Encodable(Numbered(old(data.View()), generated)) == data.encodeSucc
    ensures fresh(frame) && (ok ==> PacketLen(data.View()) <= MAX_PACKET_LEN && frame[..] == Frame(data.View()))
    ensures data.View() == if old(data.serviceName) == [] || old(data.methodName) == []
                           then old(data.View()) else Numbered(old(data.View()), generated)
    ensures data.decodeSucc == old(data.decodeSucc)
  {
    data.encodeSucc := false;
    frame := new Byte[0];
    if data.serviceName == [] || data.methodName == [] {
      return false, frame;
    }
    if data.msgNo == [] {
      data.msgNo := generated;
    }
    var serviceFullName := data.serviceName + "." + data.methodName;
    var packetLen := MIN_PACKET_LEN + |data.msgNo| + |serviceFullName| + |data.errInfo| + |data.pbData|;
    if packetLen > MAX_PACKET_LEN {
      return false, frame;
    }
    frame := new Byte[packetLen](_ => '\0');
    var cursor := WriteFrame(frame, packetLen, data.View(), serviceFullName);
    // the source's length-mismatch branch is dead
    assert cursor == frame.Length;
    assert frame[..] == frame[..cursor];
    data.encodeSucc := true;
    ok := true;
  }

  /** The fields in wire order, each behind the previous one. */
  method WriteFrame(frame: array<Byte>, packetLen: nat, m: Msg, serviceFullName: Bytes) returns (cursor: nat)
    requires serviceFullName == FullName(m) && frame.Length == packetLen == PacketLen(m) <= MAX_PACKET_LEN
    modifies frame
    ensures cursor == packetLen && frame[..cursor] == Frame(m)
  {
    cursor := WriteString(frame, 0, [PACKET_START]);
    assert frame[..cursor] == [PACKET_START];
    cursor := WriteInt32(frame, cursor, packetLen);
    cursor := WriteField(frame, cursor, m.msgNo);
    cursor := WriteField(frame, cursor, serviceFullName);
    cursor := WriteInt32(frame, cursor, m.errCode);
    cursor := WriteField(frame, cursor, m.errInfo);
    cursor := WriteString(frame, cursor, m.pbData);
    cursor := WriteInt32(frame, cursor, CHECKSUM_PLACEHOLDER);
    cursor := WriteString(frame, cursor, [PACKET_END]);
  }

  method Encode(buf: TcpBuffer, data: RpcStruct, generated: Bytes)
    requires buf.Valid()
    modifies buf, buf.buffer, data
    ensures buf.Valid() && (buf.buffer == old(buf.buffer) || fresh(buf.buffer))
    ensures buf.buffer.Length >= old(buf.buffer.Length)
    ensures data.encodeSucc == Encodable(Numbered(old(data.View()), generated))
    ensures buf.Contents() == old(buf.Contents())
              + if data.encodeSucc then Frame(Numbered(old(data.View()), generated)) else []
  {
    var ok, frame := EncodePbData(data, generated);
    if !ok {
      return;
    }
    buf.WriteToBuffer(frame[..]);
  }

  // ----- decoding -----

  method ReadInt32(buffer: array<Byte>, index: int, limit: int) returns (ok: bool, value: Int32)
    requires limit <= buffer.Length
    ensures ok == (0 <= index && index + 4 <= limit)
    ensures ok ==> value == DecodeInt32(buffer[index..index + 4])
  {
    if index < 0 || limit < index || limit - index < 4 {
      return false, 0;
    }
    return true, DecodeInt32(buffer[index..index + 4]);
  }

  method ReadString(buffer: array<Byte>, cursor: int, limit: int, length: Int32)
      returns (ok: bool, next: int, value: Bytes)
    requires limit <= buffer.Length
    ensures ok == (0 <= length && 0 <= cursor && cursor + length <= limit)
    ensures ok ==> value == buffer[cursor..cursor + length] && next == cursor + length
    ensures !ok ==> next == cursor
  {
    if length < 0 || cursor < 0 || limit < cursor || length > limit - cursor {
      return false, cursor, [];
    }
    return true, cursor + length, buffer[cursor..cursor + length];
  }

  lemma ReadFieldAgrees(f: Bytes, i: nat, limit: nat, n: Int32)
    requires i + 4 <= limit <= |f| && DecodeInt32(f[i..i + 4]) == n
    ensures ReadField(f, i, limit) ==
              if 0 <= n && i + 4 + n <= limit then Some((f[i + 4..i + 4 + n], i + 4 + n)) else None
  {
  }

  /** One length-prefixed field, as the decoder reads it in two calls. */
  method ReadFieldInPlace(buffer: array<Byte>, start: nat, packetLen: nat, cursor: int)
      returns (ok: bool, next: int, value: Bytes)
    requires start + packetLen <= buffer.Length && 5 <= packetLen
    requires start <= cursor
    ensures start <= next
    ensures var r := ReadField(buffer[start..start + packetLen], cursor - start, packetLen - 5);
      ok == r.Some? && (ok ==> r == Some((value, next - start)))
  {
    var limit := start + packetLen - 5;
    ghost var f := buffer[start..start + packetLen];
    var valid, n := ReadInt32(buffer, cursor, limit);
    next := cursor + 4;
    if !valid {
      return false, next, [];
    }
    assert buffer[cursor..cursor + 4] == f[cursor - start..cursor - start + 4];
    ReadFieldAgrees(f, cursor - start, packetLen - 5, n);
    ok, next, value := ReadString(buffer, next, limit, n);
    if ok {
      assert value == f[cursor + 4 - start..next - start];
    }
  }

  method FindLastDot(s: Bytes) returns (i: int)
    ensures i == LastDot(s)
  {
    i := |s| - 1;
    while i >= 0 && s[i] != '.'
      invariant -1 <= i < |s|
      invariant LastDot(s) == LastDot(s[..i + 1])
    {
      assert s[..i + 1][..i] == s[..i];
      i := i - 1;
    }
    assert i >= 0 ==> s[..i + 1][i] == '.';
  }

  lemma SliceOfArray(b: array<Byte>, start: nat, end: nat, i: nat, j: nat)
    requires start <= end <= b.Length && i <= j <= end - start
    ensures b[start..end][i..j] == b[start + i..start + j]
  {
    forall k | 0 <= k < j - i ensures b[start..end][i..j][k] == b[start + i..start + j][k] {
      assert b[start..end][i + k] == b[start + i + k];
    }
  }

  lemma FieldsFound(f: Bytes, p: Fields)
    requires MIN_PACKET_LEN <= |f|
    requires ReadField(f, 5, |f| - 5) == Some((p.msgNo, p.c1)) && p.msgNo != []
    ensures ReadField(f, p.c1, |f| - 5).None? ==> ParseFields(f) == None
    ensures ReadField(f, p.c1, |f| - 5) == Some((p.full, p.c2)) ==>
      ParseFields(f) == if p.full == [] || |f| - 5 < p.c2 + 4 then None
                        else match ReadField(f, p.c2 + 4, |f| - 5)
                          case None => None
                          case Some((errInfo, c3)) => Some(p.(errInfo := errInfo, c3 := c3))
  {
  }

  /** Number, name, error code and error text, one behind the other. */
  method DecodeFields(buffer: array<Byte>, start: nat, packetLen: nat) returns (r: Option<Fields>, errCode: Int32)
    requires start + packetLen <= buffer.Length && MIN_PACKET_LEN <= packetLen
    ensures r == ParseFields(buffer[start..start + packetLen])
    ensures r.Some? ==> errCode == DecodeInt32(buffer[start..start + packetLen][r.value.c2..r.value.c2 + 4])
  {
    hide ReadField;
    ghost var f := buffer[start..start + packetLen];
    var checksumIndex := start + packetLen - 5;
    errCode := 0;
    var valid, c1, msgNo := ReadFieldInPlace(buffer, start, packetLen, start + 5);
    if !valid || msgNo == [] {
      return None, errCode;
    }
    var c2, full;
    valid, c2, full := ReadFieldInPlace(buffer, start, packetLen, c1);
    FieldsFound(f, Fields(msgNo, c1 - start, full, c2 - start, [], 0));
    if !valid || full == [] {
      return None, errCode;
    }
    valid, errCode := ReadInt32(buffer, c2, checksumIndex);
    if !valid {
      return None, errCode;
    }
    SliceOfArray(buffer, start, start + packetLen, c2 - start, c2 - start + 4);
    var c3, errInfo;
    valid, c3, errInfo := ReadFieldInPlace(buffer, start, packetLen, c2 + 4);
    if !valid {
      return None, errCode;
    }
    r := Some(Fields(msgNo, c1 - start, full, c2 - start, errInfo, c3 - start));
  }

  method SplitFullName(full: Bytes) returns (r: Option<(Bytes, Bytes)>)
    ensures r == SplitName(full)
  {
    var separator := FindLastDot(full);
    if separator == -1 || separator == 0 || separator + 1 >= |full| {
      return None;
    }
    r := Some((full[..separator], full[separator + 1..]));
  }

  lemma PacketFound(f: Bytes, p: Fields, checksum: Int32)
    requires MIN_PACKET_LEN <= |f| && ParseFields(f) == Some(p)
    requires DecodeInt32(f[|f| - 5..|f| - 1]) == checksum
    ensures SplitName(p.full).None? || checksum != CHECKSUM_PLACEHOLDER ==> ParseFrame(f) == None
    ensures SplitName(p.full).Some? && checksum == CHECKSUM_PLACEHOLDER ==>
      ParseFrame(f) == Some(Msg(p.msgNo, SplitName(p.full).value.0, SplitName(p.full).value.1, f[p.c3..|f| - 5],
                                DecodeInt32(f[p.c2..p.c2 + 4]), p.errInfo))
  {
  }

  /** A complete frame whose length word and end byte were checked. */
  method DecodePacket(buffer: array<Byte>, start: nat, packetLen: nat) returns (r: Option<Msg>)
    requires start + packetLen <= buffer.Length && MIN_PACKET_LEN <= packetLen
    ensures r == ParseFrame(buffer[start..start + packetLen])
  {
    hide ParseFields;
    ghost var f := buffer[start..start + packetLen];
    var endIndex := start + packetLen - 1;
    var checksumIndex := endIndex - 4;
    var fields, errCode := DecodeFields(buffer, start, packetLen);
    if fields.None? {
      return None;
    }
    var names := SplitFullName(fields.value.full);
    var valid, checksum := ReadInt32(buffer, checksumIndex, endIndex);
    SliceOfArray(buffer, start, start + packetLen, packetLen - 5, packetLen - 1);
    PacketFound(f, fields.value, checksum);
    if names.None? || !valid || checksum != CHECKSUM_PLACEHOLDER {
      return None;
    }
    SliceOfArray(buffer, start, start + packetLen, fields.value.c3, packetLen - 5);
    r := Some(Msg(fields.value.msgNo, names.value.0, names.value.1, buffer[start + fields.value.c3..checksumIndex],
                  errCode, fields.value.errInfo));
  }

  /** One decoding attempt: noise goes, an incomplete frame stays, bad bytes are skipped by one or
      by the whole frame, and a message is filled in and taken off the buffer. */
  method Decode(buf: TcpBuffer, data: RpcStruct)
    requires buf.Valid()
    modifies buf, data
    ensures buf.Valid() && (buf.buffer == old(buf.buffer) || fresh(buf.buffer))
    ensures buf.buffer.Length == old(buf.buffer.Length)
    ensures var d := DecodeStep(old(buf.Contents()));
      && buf.Contents() == old(buf.Contents())[d.drop..]
      && data.decodeSucc == d.verdict.Accepted?
      && data.View() == if d.verdict.Accepted? then d.verdict.msg else old(data.View())
    ensures data.encodeSucc == old(data.encodeSucc)
  {
    hide DecodeFrame, DecodeStep, StartOf;
    data.decodeSucc := false;
    ghost var s := buf.Contents();
    ghost var k := StartOf(s);
    StepOf(s);
    var found := SkipNoise(buf);
    if !found {
      NothingToDecode(s[k..]);
      return;
    }
    DecodeAtStart(buf, data, s[k..]);
    DropAgain(s, k, DecodeFrame(s[k..]).drop);
  }

  /** Drops everything in front of the first start byte, or everything when there is none. */
  method SkipNoise(buf: TcpBuffer) returns (found: bool)
    requires buf.Valid()
    modifies buf
    ensures buf.Valid() && (buf.buffer == old(buf.buffer) || fresh(buf.buffer))
    ensures buf.buffer.Length == old(buf.buffer.Length)
    ensures buf.Contents() == old(buf.Contents())[StartOf(old(buf.Contents()))..]
    ensures found == (buf.Contents() != [])
  {
    hide StartOf;
    ghost var s := buf.Contents();
    var startIndex := FindStart(buf);
    var readIndex, writeIndex := buf.readIndex, buf.writeIndex;
    if startIndex == writeIndex {
      buf.RecycleRead(writeIndex - readIndex);
      return false;
    }
    assert s[0..] == s;
    if startIndex > readIndex {
      buf.RecycleRead(startIndex - readIndex);
    }
    found := true;
  }

  lemma StepOf(s: Bytes)
    ensures var k := StartOf(s); var d := DecodeFrame(s[k..]); DecodeStep(s) == Step(d.verdict, k + d.drop)
  {
  }

  lemma NothingToDecode(t: Bytes)
    requires t == []
    ensures DecodeFrame(t) == Step(Waiting, 0)
  {
  }

  lemma DropAgain(s: Bytes, k: nat, n: nat)
    requires k + n <= |s|
    ensures s[k..][n..] == s[k + n..]
  {
  }

  method FindStart(buf: TcpBuffer) returns (startIndex: nat)
    requires buf.Valid()
    ensures startIndex == buf.readIndex + StartOf(buf.Contents())
  {
    ghost var s := buf.Contents();
    startIndex := buf.readIndex;
    while startIndex < buf.writeIndex && buf.buffer[startIndex] != PACKET_START
      invariant buf.readIndex <= startIndex <= buf.writeIndex
      invariant StartOf(s) == StartFrom(s, startIndex - buf.readIndex)
    {
      assert buf.buffer[startIndex] == s[startIndex - buf.readIndex];
      startIndex := startIndex + 1;
    }
    assert startIndex < buf.writeIndex ==> buf.buffer[startIndex] == s[startIndex - buf.readIndex];
  }

  /** The attempt from the start byte on. */
  method DecodeAtStart(buf: TcpBuffer, data: RpcStruct, ghost t: Bytes)
    requires buf.Valid() && buf.Contents() == t && !data.decodeSucc
    modifies buf, data
    ensures buf.Valid() && (buf.buffer == old(buf.buffer) || fresh(buf.buffer))
    ensures buf.buffer.Length == old(buf.buffer.Length)
    ensures var d := DecodeFrame(t);
      && buf.Contents() == t[d.drop..]
      && data.decodeSucc == d.verdict.Accepted?
      && data.View() == if d.verdict.Accepted? then d.verdict.msg else old(data.View())
    ensures data.encodeSucc == old(data.encodeSucc)
  {
    hide ParseFrame;
    var startIndex, writeIndex := buf.readIndex, buf.writeIndex;
    if writeIndex - startIndex < 5 {
      return;
    }
    var valid, packetLen := ReadInt32(buf.buffer, startIndex + 1, writeIndex);
    SliceOfArray(buf.buffer, startIndex, writeIndex, 1, 5);
    if packetLen < MIN_PACKET_LEN || packetLen > MAX_PACKET_LEN {
      buf.RecycleRead(1);
      return;
    }
    if writeIndex - startIndex < packetLen {
      return;
    }
    var endIndex := startIndex + packetLen - 1;
    assert buf.buffer[endIndex] == t[packetLen - 1];
    if buf.buffer[endIndex] != PACKET_END {
      buf.RecycleRead(1);
      return;
    }
    SliceOfArray(buf.buffer, startIndex, writeIndex, 0, packetLen);
    assert t[0..packetLen] == t[..packetLen];
    TakePacket(buf, data, t, packetLen);
  }

  /** A complete frame whose length word and end byte were checked, at the front of the buffer. */
  method TakePacket(buf: TcpBuffer, data: RpcStruct, ghost t: Bytes, packetLen: nat)
    requires buf.Valid() && buf.Contents() == t && !data.decodeSucc
    requires MIN_PACKET_LEN <= packetLen <= |t|
    requires buf.buffer[buf.readIndex..buf.readIndex + packetLen] == t[..packetLen]
    modifies buf, data
    ensures buf.Valid() && (buf.buffer == old(buf.buffer) || fresh(buf.buffer))
    ensures buf.buffer.Length == old(buf.buffer.Length) && data.encodeSucc == old(data.encodeSucc)
    ensures buf.Contents() == t[packetLen..]
    ensures data.decodeSucc == ParseFrame(t[..packetLen]).Some?
    ensures data.View() == if data.decodeSucc then ParseFrame(t[..packetLen]).value else old(data.View())
  {
    hide ParseFrame;
    var r := DecodePacket(buf.buffer, buf.readIndex, packetLen);
    if r.None? {
      buf.RecycleRead(packetLen);
      return;
    }
    var m := r.value;
    data.msgNo, data.serviceName, data.methodName := m.msgNo, m.serviceName, m.methodName;
    data.errCode, data.errInfo, data.pbData := m.errCode, m.errInfo, m.pbData;
    buf.RecycleRead(packetLen);
    data.decodeSucc := true;
  }
}
