/** The HTTP codec at work: `decode` fills a request object from a connection's buffer,
    `encode` appends a response to one. */
module HttpMessages {
  import opened Bytes
  import opened Decimals
  import opened Strings
  import opened HttpHeaders
  import opened HttpCodecs
  import opened TcpBuffers

  class HttpRequest {
    const header: HttpHeaderComm
    var decodeSucc: bool
    var verb: Option<Verb>
    var path: Bytes
    var query: Bytes
    var version: Bytes
    var queryMap: map<Bytes, Bytes>
    var body: Bytes

    constructor ()
      ensures Blank() && fresh(header)
    {
      header := new HttpHeaderComm();
      decodeSucc, verb, path, query, version, queryMap, body := false, None, "/", [], "HTTP/1.1", map[], [];
    }

    /** As the execute loop makes it, anew for every attempt. */
    ghost predicate Blank()
      reads this, header
    {
      header.maps == map[] && queryMap == map[] && query == []
    }

    ghost function Line(): RequestLine
      reads this
      requires verb.Some?
    {
      RequestLine(verb.value, version, path, query, queryMap)
    }

    ghost function View(): Request
      reads this, header
      requires verb.Some?
    {
      Request(Line(), header.maps, body)
    }
  }

  class HttpResponse {
    const header: HttpHeaderComm
    var encodeSucc: bool
    var version: Bytes
    var code: int
    var info: Bytes
    var body: Bytes

    constructor ()
      ensures version == "HTTP/1.1" && code == 200 && info == "OK" && body == []
      ensures fresh(header) && header.maps == map[]
    {
      header := new HttpHeaderComm();
      encodeSucc, version, code, info, body := false, "HTTP/1.1", 200, "OK", [];
    }
  }

  class HttpCodec {
    method ParseHttpRequestLine(request: HttpRequest, line: Bytes) returns (ok: bool)
      requires request.query == [] && request.queryMap == map[]
      modifies request
      ensures ok == ParseRequestLine(line).Some? && request.decodeSucc == old(request.decodeSucc)
      ensures ok ==> request.verb.Some? && request.Line() == ParseRequestLine(line).value
    {
      hide Tokens, Upper, LocalTarget;
      var words := Tokens(line);
      if |words| != 3 {
        return false;
      }
      var verb := Upper(words[0]);
      if verb == "GET" {
        request.verb := Some(GET);
      } else if verb == "POST" {
        request.verb := Some(POST);
      } else {
        return false;
      }
      var version := Upper(words[2]);
      if version != "HTTP/1.1" && version != "HTTP/1.0" {
        return false;
      }
      request.version := version;
      hide LineOf;
      LineOfParts(request.verb.value, words[1], words[2]);
      SetTarget(request, words[1]);
      ok := true;
    }

    /** The rest of the request line: path, query and parameters. */
    method SetTarget(request: HttpRequest, word: Bytes)
      requires request.query == [] && request.queryMap == map[]
      modifies request`path, request`query, request`queryMap
      ensures (request.path, request.query, request.queryMap) == TargetParts(LocalTarget(word))
    {
      hide Find, SplitMap, LocalTarget;
      var target := TakeLocal(word);
      var query := Find(target, "?", 0);
      request.path := if query.None? then target else target[..query.value];
      if request.path == [] {
        request.path := "/";
      }
      if request.path[0] != '/' {
        request.path := ['/'] + request.path;
      }
      if query.Some? {
        request.query := target[query.value + 1..];
        request.queryMap := SplitStrToMap(request.query, "&", "=", request.queryMap);
      }
    }

    /** Drops scheme, authority and fragment. */
    method TakeLocal(word: Bytes) returns (target: Bytes)
      ensures target == LocalTarget(word)
    {
      hide Find;
      target := word;
      var scheme := Find(target, "://", 0);
      if scheme.Some? {
        var pathBegin := Find(target, "/", scheme.value + 3);
        target := if pathBegin.None? then "/" else target[pathBegin.value..];
      }
      var fragment := Find(target, "#", 0);
      if fragment.Some? {
        target := target[..fragment.value];
      }
    }

    method ParseHttpRequestHeader(request: HttpRequest, headers: Bytes) returns (ok: bool)
      modifies request.header
      ensures ok == ParseHeaders(old(request.header.maps), headers).Some?
      ensures ok ==> request.header.maps == ParseHeaders(old(request.header.maps), headers).value
    {
      var header := request.header;
      if headers == [] {
        EmptySplit(headers, CRLF);
        return true;
      }
      var lines := SplitStrToVector(headers, CRLF);
      ghost var given := header.maps;
      for i := 0 to |lines|
        invariant ParseLines(given, lines[..i]) == Some(header.maps)
      {
        var line := lines[i];
        ParseLinesMore(given, lines, i);
        var separator := Find(line, COLON, 0);
        if separator.None? || separator.value == 0 {
          return false;
        }
        var key := Trim(line[..separator.value]);
        var value := Trim(line[separator.value + 1..]);
        if key == [] {
          return false;
        }
        header.SetKeyValue(key, value);
      }
      assert lines[..|lines|] == lines;
      ok := true;
    }

    method Decode(buffer: TcpBuffer, request: HttpRequest)
      requires buffer.Valid() && request.Blank()
      modifies buffer, request, request.header
      ensures buffer.Valid() && (buffer.buffer == old(buffer.buffer) || fresh(buffer.buffer))
      ensures request.decodeSucc == DecodeHttp(old(buffer.Contents())).Decoded?
      ensures buffer.Contents() == old(buffer.Contents())[HttpStep(old(buffer.Contents())).drop..]
      ensures request.decodeSucc ==>
                request.verb.Some? && request.View() == DecodeHttp(old(buffer.Contents())).request
    {
      hide DecodeHttp;
      request.decodeSucc := false;
      var bytes := buffer.GetBufferString();
      assert bytes[0..] == bytes;
      var totalLength, ok := DecodeInto(request, bytes);
      if !ok {
        return;
      }
      buffer.RecycleRead(totalLength);
      request.decodeSucc := true;
    }

    /** `decode` on the bytes of the buffer, up to their removal. */
    method DecodeInto(request: HttpRequest, bytes: Bytes) returns (totalLength: nat, ok: bool)
      requires request.Blank()
      modifies request, request.header
      ensures ok == DecodeHttp(bytes).Decoded? && request.decodeSucc == old(request.decodeSucc)
      ensures ok ==> && request.verb.Some? && totalLength <= |bytes|
                     && DecodeHttp(bytes) == Decoded(request.View(), totalLength)
    {
      hide Find, DecodeHead;
      totalLength, ok := 0, false;
      var requestLineEnd := Find(bytes, CRLF, 0);
      if requestLineEnd.None? {
        return;
      }
      var headerEnd := Find(bytes, HEADER_END, 0);
      if headerEnd.None? {
        return;
      }
      if headerEnd.value < requestLineEnd.value + 2 {
        return;
      }
      var length, parsed := DecodeHeadInto(request, bytes[..requestLineEnd.value],
                                           bytes[requestLineEnd.value + 2..headerEnd.value]);
      if !parsed {
        return;
      }
      var bodyBegin := headerEnd.value + 4;
      totalLength := bodyBegin + length;
      if |bytes| < totalLength {
        return;
      }
      request.body := bytes[bodyBegin..totalLength];
      ok := true;
    }

    /** The middle of `decode`: both parsers, the transfer coding and the length. */
    method DecodeHeadInto(request: HttpRequest, line: Bytes, headers: Bytes) returns (length: nat, ok: bool)
      requires request.Blank()
      modifies request, request.header
      ensures ok == DecodeHead(line, headers).Some? && request.decodeSucc == old(request.decodeSucc)
      ensures ok ==> && request.verb.Some?
                     && DecodeHead(line, headers).value == Head(request.Line(), request.header.maps, length)
    {
      hide ParseRequestLine, ParseHeaders, ContentLength, Lower;
      length, ok := 0, false;
      var parsed := ParseHttpRequestLine(request, line);
      if !parsed {
        return;
      }
      parsed := ParseHttpRequestHeader(request, headers);
      if !parsed {
        return;
      }
      var transferEncoding := Lower(request.header.GetValue("Transfer-Encoding"));
      if transferEncoding != [] && transferEncoding != "identity" {
        return;
      }
      var contentLength := ContentLength(request.header.GetValue("Content-Length"));
      if contentLength.None? {
        return;
      }
      length, ok := contentLength.value, true;
    }

    /** Completes the response and appends it; the header lines come in some order. */
    method Encode(buffer: TcpBuffer, response: HttpResponse) returns (ghost entries: seq<Entry>)
      requires buffer.Valid()
      modifies buffer, buffer.buffer, response, response.header
      ensures buffer.Valid() && response.encodeSucc
      ensures response.code == old(response.code) && response.body == old(response.body)
      ensures response.version == if old(response.version) == [] then "HTTP/1.1" else old(response.version)
      ensures response.info == if old(response.info) == [] then Reason(response.code) else old(response.info)
      ensures response.header.maps == Completed(old(response.header.maps), |response.body|)
      ensures Lists(entries, response.header.maps) && Ascending(entries)
      ensures buffer.Contents() == old(buffer.Contents()) +
                Response(StatusLine(response.version, response.code, response.info), entries, response.body)
    {
      hide *;
      response.encodeSucc := false;
      Complete(response);
      var lines;
      lines, entries := response.header.ToHttpString();
      var status := StatusLine(response.version, response.code, response.info);
      ResponseIs(status, entries, response.body);
      buffer.WriteToBuffer(status + CRLF + lines + CRLF + response.body);
      response.encodeSucc := true;
    }

    method Complete(response: HttpResponse)
      modifies response`version, response`info, response.header
      ensures response.version == if old(response.version) == [] then "HTTP/1.1" else old(response.version)
      ensures response.info == if old(response.info) == [] then Reason(response.code) else old(response.info)
      ensures response.header.maps == Completed(old(response.header.maps), |response.body|)
    {
      hide Decimal, Reason, Lower;
      var header := response.header;
      if response.version == [] {
        response.version := "HTTP/1.1";
      }
      if response.info == [] {
        response.info := Reason(response.code);
      }
      header.SetKeyValue("Content-Length", Decimal(|response.body|));
      if header.GetValue("Connection") == [] {
        header.SetKeyValue("Connection", "keep-alive");
      }
    }
  }

  function TargetParts(local: Bytes): (Bytes, Bytes, map<Bytes, Bytes>) {
    match Find(local, "?", 0)
    case None => (Rooted(local), [], map[])
    case Some(q) => (Rooted(local[..q]), local[q + 1..], SplitMap(map[], local[q + 1..], "&", "="))
  }

  lemma LineOfParts(verb: Verb, target: Bytes, version: Bytes)
    ensures var p := TargetParts(LocalTarget(target));
            LineOf(verb, target, version) == RequestLine(verb, Upper(version), p.0, p.1, p.2)
  {
  }

  // ----- responses -----

  /** `HttpCodeToString`. */
  function Reason(code: int): Bytes {
    if code == 200 then "OK"
    else if code == 400 then "Bad Request"
    else if code == 403 then "Forbidden"
    else if code == 404 then "Not Found"
    else if code == 500 then "Internal Server Error"
    else "Unknown"
  }

  function StatusLine(version: Bytes, code: int, info: Bytes): Bytes {
    version + [' '] + (if code < 0 then ['-'] + Decimal(-code) else Decimal(code)) + [' '] + info
  }

  function Response(status: Bytes, entries: seq<Entry>, body: Bytes): Bytes {
    status + CRLF + Printed(entries) + CRLF + body
  }

  lemma ResponseIs(status: Bytes, entries: seq<Entry>, body: Bytes)
    ensures Response(status, entries, body) == status + CRLF + Printed(entries) + CRLF + body
  {
  }

  /** The header that is sent: the true body length, and a connection option unless one is set. */
  function Completed(m: HeaderMap, length: nat): HeaderMap {
    var n := m[Lower("Content-Length") := Decimal(length)];
    if Lookup(n, "Connection") == [] then n[Lower("Connection") := "keep-alive"] else n
  }

  /** The phrases of section 15 of RFC 9110 for the codes that servlets use. */
  const PHRASES: map<int, Bytes> :=
    map[200 := "OK", 400 := "Bad Request", 403 := "Forbidden", 404 := "Not Found", 500 := "Internal Server Error"]

  lemma ReasonPhrases(code: int)
    ensures Reason(code) == if code in PHRASES then PHRASES[code] else "Unknown"
  {
  }

  /** A status line: the version, the code as a number, and the rest of the line as the phrase. */
  lemma StatusLineReads(version: Bytes, code: int, info: Bytes) returns (text: Bytes)
    requires IsWord(version)
    ensures Tokens(StatusLine(version, code, info)) == [version, text] + Tokens(info)
    ensures StatusLine(version, code, info) == version + [' '] + text + [' '] + info
    ensures code >= 0 ==> Digits(text) && Value(text) == code
    ensures code < 0 ==> text != [] && text[0] == '-' && Digits(text[1..]) && Value(text[1..]) == -code
  {
    hide Tokens, Decimal, Value;
    var n := if code < 0 then -code else code;
    DecimalValue(n);
    text := (if code < 0 then "-" else []) + Decimal(n);
    assert code < 0 ==> text[1..] == Decimal(n);
    assert code >= 0 ==> text == Decimal(n);
    assert code < 0 ==> text == ['-'] + Decimal(n);
    CodeIsWord(text, Decimal(n));
    var behind := [' '] + info;
    assert version + [' '] + text + [' '] + info == version + ([' '] + (text + behind));
    FirstToken(version, [' '] + (text + behind));
    SkipOne(text + behind);
    FirstToken(text, behind);
    SkipOne(info);
  }

  lemma CodeIsWord(text: Bytes, digits: Bytes)
    requires Digits(digits) && digits != [] && (text == digits || text == ['-'] + digits)
    ensures IsWord(text)
  {
  }

  predicate Plain(s: Bytes) {
    forall i :: 0 <= i < |s| ==> s[i] != '\r' && s[i] != '\n' && s[i] != ':' && !Blank(s[i])
  }

  lemma PlainIsFree(s: Bytes)
    requires Plain(s)
    ensures Trimmed(s) && Free(s, COLON) && Free(s, CRLF)
  {
    NoReturnIsFree(s);
    forall i | 0 <= i < |s|
      ensures !OccursAt(s, COLON, i)
    {
      if i + 1 <= |s| {
        assert s[i..i + 1][0] == s[i];
      }
    }
  }

  ghost predicate PrintableMap(m: HeaderMap) {
    forall k :: k in m ==> Printable((k, m[k]))
  }

  lemma KeyNames()
    ensures Lower("Content-Length") == "content-length" && Lower("Connection") == "connection"
    ensures Lower("content-length") == "content-length" && Lower("connection") == "connection"
  {
    hide Lower;
    SameBytes("Content-Length", "content-length");
    SameBytes("Connection", "connection");
    SameBytes("content-length", "content-length");
    SameBytes("connection", "connection");
  }

  lemma PlainEntry(key: Bytes, value: Bytes)
    requires key != [] && Lower(key) == key && Plain(key) && Plain(value)
    ensures Printable((key, value))
  {
    PlainIsFree(key);
    PlainIsFree(value);
  }

  lemma PrintableSet(m: HeaderMap, key: Bytes, value: Bytes)
    requires PrintableMap(m) && Printable((key, value))
    ensures PrintableMap(m[key := value])
  {
  }

  lemma StandardEntries(length: nat)
    ensures Printable((Lower("Content-Length"), Decimal(length)))
    ensures Printable((Lower("Connection"), "keep-alive"))
  {
    hide Lower, Printable, Decimal;
    KeyNames();
    PlainEntry("content-length", Decimal(length));
    PlainEntry("connection", "keep-alive");
  }

  lemma CompletedPrintable(m: HeaderMap, length: nat)
    requires PrintableMap(m)
    ensures PrintableMap(Completed(m, length))
    ensures Lookup(Completed(m, length), "Content-Length") == Decimal(length)
  {
    hide Lower, Printable, Decimal, PrintableMap;
    var n := m[Lower("Content-Length") := Decimal(length)];
    StandardEntries(length);
    PrintableSet(m, Lower("Content-Length"), Decimal(length));
    PrintableSet(n, Lower("Connection"), "keep-alive");
    KeysDiffer();
  }

  /** What completing a header does: the true length, a connection option unless one is set, and
      nothing else. */
  lemma CompletedMeans(m: HeaderMap, length: nat)
    ensures var r := Completed(m, length);
      && r.Keys == m.Keys + {"content-length", "connection"} && r["content-length"] == Decimal(length)
      && r["connection"] == (if "connection" in m && m["connection"] != [] then m["connection"] else "keep-alive")
      && forall k :: k in m && k != "content-length" && k != "connection" ==> r[k] == m[k]
  {
    hide Lower, Decimal;
    KeyNames();
    KeysDiffer();
  }

  lemma KeysDiffer()
    ensures Lower("Content-Length") != Lower("Connection")
  {
    assert |Lower("Content-Length")| != |Lower("Connection")|;
  }

  const CONNECTION_KEY: Bytes := "connection"
  const LENGTH_KEY: Bytes := "content-length"
  const KEEP_ALIVE: Bytes := "keep-alive"
  const CONNECTION_LINE: Bytes := "\r\nconnection: keep-alive\r\n"
  const LENGTH_BLANK: Bytes := "content-length: "

  /** A response with no header of its own, byte by byte behind its status line. */
  lemma PlainResponse(status: Bytes, entries: seq<Entry>, body: Bytes)
    requires Lists(entries, Completed(map[], |body|)) && Ascending(entries)
    ensures Response(status, entries, body) ==
            status + (CONNECTION_LINE + (LENGTH_BLANK + Decimal(|body|) + (HEADER_END + body)))
  {
    var n, m := Decimal(|body|), Completed(map[], |body|);
    hide *;
    BareHeader(|body|);
    TwoEntries(n, m);
    TwoInOrder(status, entries, (CONNECTION_KEY, KEEP_ALIVE), (LENGTH_KEY, n), m, body);
    Glue(status, n, body);
  }

  lemma BareHeader(length: nat)
    ensures var m := Completed(map[], length);
            && m.Keys == {LENGTH_KEY, CONNECTION_KEY}
            && m[LENGTH_KEY] == Decimal(length) && m[CONNECTION_KEY] == KEEP_ALIVE
  {
    hide Decimal, Completed;
    CompletedMeans(map[], length);
  }

  lemma TwoInOrder(status: Bytes, entries: seq<Entry>, a: Entry, b: Entry, m: HeaderMap, body: Bytes)
    requires Lists(entries, m) && Ascending(entries) && Lists([a, b], m) && Ascending([a, b])
    ensures Response(status, entries, body) ==
            status + CRLF + (a.0 + COLON_BLANK + a.1 + CRLF + b.0 + COLON_BLANK + b.1 + CRLF) + CRLF + body
  {
    hide *;
    OneListing(entries, [a, b], m);
    TwoLines(a, b);
    ResponseIs(status, entries, body);
  }

  lemma TwoLines(a: Entry, b: Entry)
    ensures Printed([a, b]) == a.0 + COLON_BLANK + a.1 + CRLF + b.0 + COLON_BLANK + b.1 + CRLF
  {
    PrintedMore([], a.0, a.1);
    PrintedMore([a], b.0, b.1);
    assert [] + [a] == [a] && [a] + [b] == [a, b];
    assert Printed([]) == [];
    hide Printed;
    assert [] + a.0 == a.0;
  }

  lemma Glue(status: Bytes, n: Bytes, body: Bytes)
    ensures status + CRLF
            + (CONNECTION_KEY + COLON_BLANK + KEEP_ALIVE + CRLF + LENGTH_KEY + COLON_BLANK + n + CRLF) + CRLF + body
         == status + (CONNECTION_LINE + (LENGTH_BLANK + n + (HEADER_END + body)))
  {
    var one, two := CONNECTION_KEY + COLON_BLANK + KEEP_ALIVE + CRLF, LENGTH_KEY + COLON_BLANK;
    assert CRLF + one == CONNECTION_LINE && two == LENGTH_BLANK && CRLF + CRLF == HEADER_END;
    Shift(status, one, two, n, body);
  }

  lemma Shift(status: Bytes, one: Bytes, two: Bytes, n: Bytes, body: Bytes)
    ensures status + CRLF + (one + two + n + CRLF) + CRLF + body
         == status + ((CRLF + one) + (two + n + ((CRLF + CRLF) + body)))
  {
  }

  lemma TwoEntries(n: Bytes, m: HeaderMap)
    requires m.Keys == {LENGTH_KEY, CONNECTION_KEY} && m[LENGTH_KEY] == n && m[CONNECTION_KEY] == KEEP_ALIVE
    ensures Lists([(CONNECTION_KEY, KEEP_ALIVE), (LENGTH_KEY, n)], m)
    ensures Ascending([(CONNECTION_KEY, KEEP_ALIVE), (LENGTH_KEY, n)])
  {
    var a, b := CONNECTION_KEY, LENGTH_KEY;
    BelowAfter("con", "nection", "tent-length");
    assert a == "con" + "nection" && b == "con" + "tent-length";
    var entries: seq<Entry> := [(a, KEEP_ALIVE), (b, n)];
    assert entries[0].0 == a && entries[1].0 == b;
    assert forall k :: k in m <==> k == a || k == b;
  }

  lemma {:induction false} BelowAfter(front: Bytes, a: Bytes, b: Bytes)
    requires a != [] && b != [] && a[0] < b[0]
    ensures Below(front + a, front + b)
  {
    if front == [] {
      assert front + a == a && front + b == b;
    } else {
      BelowAfter(front[1..], a, b);
      assert (front + a)[1..] == front[1..] + a && (front + b)[1..] == front[1..] + b;
    }
  }

  lemma ResponseShape(status: Bytes, entries: seq<Entry>, body: Bytes, rest: Bytes)
    requires Items(entries, COLON_BLANK) != []
    ensures Response(status, entries, body) + rest ==
            Message(status, Join(Items(entries, COLON_BLANK), CRLF), body + rest)
  {
    var items := Items(entries, COLON_BLANK);
    TerminatedIsJoin(items, CRLF);
    hide Join, Items, Terminated;
    PrintShape(status, Join(items, CRLF), body, rest);
  }

  /** A client that reads lines up to the empty one, and then as many bytes as Content-Length
      says, finds the status line, the header and exactly the body, whatever follows. */
  lemma ResponseFraming(status: Bytes, m: HeaderMap, entries: seq<Entry>, body: Bytes, rest: Bytes) returns (end: nat)
    requires Free(status, CRLF) && PrintableMap(m) && Lists(entries, Completed(m, |body|))
    ensures var s := Response(status, entries, body) + rest;
            && Find(s, CRLF, 0) == Some(|status|) && Find(s, HEADER_END, 0) == Some(end)
            && |status| + 2 <= end && end + 4 + |body| <= |s|
            && s[..|status|] == status
            && ParseHeaders(map[], s[|status| + 2..end]) == Some(Completed(m, |body|))
            && s[end + 4..end + 4 + |body|] == body
    ensures Lookup(Completed(m, |body|), "Content-Length") == Decimal(|body|) && Value(Decimal(|body|)) == |body|
  {
    hide *;
    CompletedPrintable(m, |body|);
    DecimalValue(|body|);
    EntriesParse(entries, Completed(m, |body|));
    var items := Items(entries, COLON_BLANK);
    end := |status| + 2 + |Join(items, CRLF)|;
    ResponseShape(status, entries, body, rest);
    MessageEnds(status, items, body + rest);
    Slices(status, Join(items, CRLF), body, rest);
  }

  lemma EntriesParse(entries: seq<Entry>, m: HeaderMap)
    requires Lists(entries, m) && PrintableMap(m) && Lookup(m, "Content-Length") != []
    ensures entries != [] && Items(entries, COLON_BLANK) != [] && AllFree(Items(entries, COLON_BLANK), CRLF)
    ensures Printed(entries) == Terminated(Items(entries, COLON_BLANK), CRLF)
    ensures ParseHeaders(map[], Join(Items(entries, COLON_BLANK), CRLF)) == Some(m)
  {
    assert forall i :: 0 <= i < |entries| ==> entries[i] == (entries[i].0, m[entries[i].0]);
    ItemsFree(entries);
    CrlfSeparates();
    SplitJoin(Items(entries, COLON_BLANK), CRLF);
    LinesRoundTrip(entries);
    AssignedLists(entries, m);
  }

  lemma ParseLinesMore(m: HeaderMap, lines: seq<Bytes>, i: nat)
    requires i < |lines| && ParseLines(m, lines[..i]).Some?
    ensures match ParseLine(lines[i])
            case None => ParseLines(m, lines[..i + 1]).None? && ParseLines(m, lines).None?
            case Some(e) => ParseLines(m, lines[..i + 1]) == Some(ParseLines(m, lines[..i]).value[Lower(e.0) := e.1])
  {
    assert lines[..i + 1][..i] == lines[..i];
    if ParseLine(lines[i]).None? {
      NoneStays(m, lines, i + 1);
    }
  }

  lemma {:induction false} NoneStays(m: HeaderMap, lines: seq<Bytes>, i: nat)
    requires i <= |lines| && ParseLines(m, lines[..i]).None?
    ensures ParseLines(m, lines).None?
  {
    if i == |lines| {
      assert lines[..i] == lines;
    } else {
      var init := lines[..|lines| - 1];
      assert init[..i] == lines[..i];
      NoneStays(m, init, i);
    }
  }
}
