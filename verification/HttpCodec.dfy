/** HTTP/1 request framing: a request line, header lines, an empty line and as many body
    bytes as Content-Length says (sections 3, 5 and 6 of RFC 9112). */
module HttpCodecs {
  import opened Bytes
  import opened Decimals
  import opened Strings
  import opened HttpHeaders
  import opened Streams

  const MAX_BODY: nat := 16 * 1024 * 1024

  // ----- the request line -----

  /** `isspace`. */
  predicate Space(c: Byte) {
    c == ' ' || '\t' <= c <= '\r'
  }

  lemma SpaceExactly(c: Byte)
    ensures Space(c) <==> c in " \t\n\U{000B}\U{000C}\r"
  {
    var all: Bytes := " \t\n\U{000B}\U{000C}\r";
    if Space(c) && c != ' ' {
      assert all[c as int - 8] == c;
    }
  }

  function SkipSpaces(s: Bytes): (r: Bytes)
    ensures |r| <= |s| && (r != [] ==> !Space(r[0]))
  {
    if s != [] && Space(s[0]) then SkipSpaces(s[1..]) else s
  }

  /** The bytes up to the next space. */
  function Word(s: Bytes): (w: Bytes)
    ensures |w| <= |s| && (s != [] && !Space(s[0]) ==> w != [])
  {
    if s == [] || Space(s[0]) then [] else [s[0]] + Word(s[1..])
  }

  /** What `stream >> word` yields until the stream ends. */
  function Tokens(s: Bytes): seq<Bytes>
    decreases |s|
  {
    var t := SkipSpaces(s);
    if t == [] then [] else [Word(t)] + Tokens(t[|Word(t)|..])
  }

  datatype Verb = GET | POST

  datatype RequestLine = RequestLine(verb: Verb, version: Bytes, path: Bytes, query: Bytes,
                                     queryMap: map<Bytes, Bytes>)

  function VerbOf(token: Bytes): Option<Verb> {
    if Upper(token) == "GET" then Some(GET)
    else if Upper(token) == "POST" then Some(POST)
    else None
  }

  predicate Supported(version: Bytes) {
    Upper(version) == "HTTP/1.1" || Upper(version) == "HTTP/1.0"
  }

  /** The target without scheme and authority, and without its fragment. */
  function LocalTarget(target: Bytes): Bytes {
    var local := match Find(target, "://", 0)
                 case None => target
                 case Some(scheme) =>
                   match Find(target, "/", scheme + 3)
                   case None => "/"
                   case Some(path) => target[path..];
    match Find(local, "#", 0)
    case None => local
    case Some(fragment) => local[..fragment]
  }

  function Rooted(path: Bytes): (r: Bytes)
    ensures r != [] && r[0] == '/' && (r == path || r[1..] == path) && ("/" <= path ==> r == path)
  {
    if path == [] then "/" else if path[0] != '/' then ['/'] + path else path
  }

  /** Path, query and query parameters of a target. */
  function LineOf(verb: Verb, target: Bytes, version: Bytes): RequestLine {
    var local := LocalTarget(target);
    match Find(local, "?", 0)
    case None => RequestLine(verb, Upper(version), Rooted(local), [], map[])
    case Some(q) =>
      RequestLine(verb, Upper(version), Rooted(local[..q]), local[q + 1..], SplitMap(map[], local[q + 1..], "&", "="))
  }

  function ParseRequestLine(line: Bytes): Option<RequestLine> {
    var ts := Tokens(line);
    if |ts| != 3 || VerbOf(ts[0]).None? || !Supported(ts[2]) then None
    else Some(LineOf(VerbOf(ts[0]).value, ts[1], ts[2]))
  }

  // ----- the body length -----

  /** The C string: what comes before the first zero byte. */
  function CString(s: Bytes): Bytes {
    if s == [] || s[0] == '\0' then [] else [s[0]] + CString(s[1..])
  }

  function LeadingDigits(s: Bytes): (d: Bytes)
    ensures Digits(d) && |d| <= |s|
  {
    if s == [] || !IsDigit(s[0]) then [] else [s[0]] + LeadingDigits(s[1..])
  }

  /** The Content-Length text read with `strtoll`: absent means 0; the whole text must be a
      number within the limits. Values beyond 64 bits are clamped, and so beyond them too. */
  function ContentLength(text: Bytes): Option<nat> {
    if text == [] then Some(0)
    else
      var t := SkipSpaces(CString(text));
      var sign := if t != [] && (t[0] == '-' || t[0] == '+') then 1 else 0;
      var digits := LeadingDigits(t[sign..]);
      var n := Value(digits);
      if digits == [] || t[sign..] != digits then None
      else if (sign == 1 && t[0] == '-' && n > 0) || n > MAX_BODY then None
      else Some(n)
  }

  /** A length as text: white space, a sign, digits, and whatever stands behind a zero byte. */
  ghost predicate LengthText(text: Bytes, spaces: Bytes, sign: Bytes, digits: Bytes, tail: Bytes) {
    && text == spaces + (sign + (digits + tail))
    && (forall i :: 0 <= i < |spaces| ==> Space(spaces[i])) && (sign == [] || sign == "+" || sign == "-")
    && digits != [] && Digits(digits) && (tail == [] || tail[0] == '\0')
  }

  /** What the text of a Content-Length says: none is no body, else a number within the limit. */
  ghost predicate Announces(text: Bytes, length: nat) {
    if text == [] then length == 0
    else exists spaces, sign, digits, tail ::
      && LengthText(text, spaces, sign, digits, tail)
      && Value(digits) == length <= 16 * 1024 * 1024 && (sign == "-" ==> length == 0)
  }

  lemma {:induction false} CStringOf(s: Bytes, tail: Bytes)
    requires (forall i :: 0 <= i < |s| ==> s[i] != '\0') && (tail == [] || tail[0] == '\0')
    ensures CString(s + tail) == s
  {
    if s == [] {
      assert s + tail == tail;
    } else {
      CStringOf(s[1..], tail);
      assert (s + tail)[1..] == s[1..] + tail;
    }
  }

  lemma {:induction false} CStringCuts(s: Bytes)
    ensures var c := CString(s);
      && |c| <= |s| && s == c + s[|c|..] && (s[|c|..] == [] || s[|c|] == '\0')
      && forall i :: 0 <= i < |c| ==> c[i] != '\0'
  {
    if s != [] && s[0] != '\0' {
      CStringCuts(s[1..]);
    }
  }

  lemma {:induction false} SkipsSpaces(spaces: Bytes, rest: Bytes)
    requires (forall i :: 0 <= i < |spaces| ==> Space(spaces[i])) && (rest == [] || !Space(rest[0]))
    ensures SkipSpaces(spaces + rest) == rest
  {
    if spaces == [] {
      assert spaces + rest == rest;
    } else {
      SkipsSpaces(spaces[1..], rest);
      assert (spaces + rest)[1..] == spaces[1..] + rest;
    }
  }

  lemma {:induction false} SpacesSkipped(s: Bytes)
    ensures var r := SkipSpaces(s);
      s == s[..|s| - |r|] + r && forall i :: 0 <= i < |s| - |r| ==> Space(s[i])
  {
    if s != [] && Space(s[0]) {
      SpacesSkipped(s[1..]);
    }
  }

  /** The digits behind the sign are all of what is left: a number is read. */
  lemma NumberRead(text: Bytes, spaces: Bytes, sign: Bytes, digits: Bytes, tail: Bytes)
    requires LengthText(text, spaces, sign, digits, tail)
    ensures SkipSpaces(CString(text)) == sign + digits && LeadingDigits(digits) == digits
    ensures text != [] && (sign + digits)[|sign|..] == digits
    ensures (sign == [] <==> (sign + digits)[0] != '-' && (sign + digits)[0] != '+')
  {
    var number := sign + digits;
    assert text == (spaces + number) + tail && (spaces + number) != [];
    assert forall i :: 0 <= i < |spaces| ==> spaces[i] != '\0';
    CStringOf(spaces + number, tail);
    SkipsSpaces(spaces, number);
    AllDigits(digits);
  }

  lemma NumberWritten(text: Bytes) returns (spaces: Bytes, sign: Bytes, digits: Bytes, tail: Bytes)
    requires text != [] && ContentLength(text).Some?
    ensures LengthText(text, spaces, sign, digits, tail)
    ensures Value(digits) == ContentLength(text).value <= MAX_BODY && (sign == "-" ==> Value(digits) == 0)
  {
    var c := CString(text);
    var t := SkipSpaces(c);
    CStringCuts(text);
    SpacesSkipped(c);
    hide CString, SkipSpaces, LeadingDigits, Value, Space;
    var n := if t != [] && (t[0] == '-' || t[0] == '+') then 1 else 0;
    spaces, sign, digits, tail := c[..|c| - |t|], t[..n], t[n..], text[|c|..];
    assert t == sign + digits;
    Nest(spaces, sign, digits, tail);
  }

  lemma Nest(a: Bytes, b: Bytes, c: Bytes, d: Bytes)
    ensures (a + (b + c)) + d == a + (b + (c + d))
  {
  }

  /** Whichever way a text is taken apart, the code reads the number in it. */
  lemma NumberDecides(text: Bytes, spaces: Bytes, sign: Bytes, digits: Bytes, tail: Bytes)
    requires LengthText(text, spaces, sign, digits, tail)
    ensures ContentLength(text) ==
            if Value(digits) > MAX_BODY || (sign == "-" && Value(digits) > 0) then None else Some(Value(digits))
  {
    NumberRead(text, spaces, sign, digits, tail);
    var t := SkipSpaces(CString(text));
    assert sign != [] ==> t[0] == sign[0];
    hide CString, SkipSpaces, LeadingDigits, Value, Space;
  }

  /** The code reads exactly the lengths that a text announces. */
  lemma LengthExactly(text: Bytes, length: nat)
    ensures ContentLength(text) == Some(length) <==> Announces(text, length)
  {
    hide LengthText, Value, CString, SkipSpaces, LeadingDigits;
    if text != [] {
      if ContentLength(text).Some? {
        var spaces, sign, digits, tail := NumberWritten(text);
      }
      forall spaces, sign, digits, tail | LengthText(text, spaces, sign, digits, tail)
        ensures Digits(digits) && ContentLength(text) ==
                if Value(digits) > MAX_BODY || (sign == "-" && Value(digits) > 0) then None else Some(Value(digits))
      {
        NumberIsDigits(text, spaces, sign, digits, tail);
        NumberDecides(text, spaces, sign, digits, tail);
      }
    }
  }

  lemma NumberIsDigits(text: Bytes, spaces: Bytes, sign: Bytes, digits: Bytes, tail: Bytes)
    requires LengthText(text, spaces, sign, digits, tail)
    ensures Digits(digits)
  {
  }

  // ----- decoding -----

  function Lookup(m: HeaderMap, key: Bytes): Bytes {
    if Lower(key) in m then m[Lower(key)] else []
  }

  datatype Head = Head(line: RequestLine, headers: HeaderMap, length: nat)

  /** A request line and a header block without the empty line. */
  function DecodeHead(line: Bytes, headers: Bytes): Option<Head> {
    match (ParseRequestLine(line), ParseHeaders(map[], headers))
    case (Some(l), Some(m)) =>
      var coding, length := Lower(Lookup(m, "Transfer-Encoding")), ContentLength(Lookup(m, "Content-Length"));
      if (coding != [] && coding != "identity") || length.None? then None else Some(Head(l, m, length.value))
    case _ => None
  }

  datatype Request = Request(line: RequestLine, headers: HeaderMap, body: Bytes)

  datatype Outcome = Incomplete | Rejected | Decoded(request: Request, length: nat)

  function DecodeHttp(s: Bytes): Outcome {
    match (Find(s, CRLF, 0), Find(s, HEADER_END, 0))
    case (Some(line), Some(end)) =>
      if end < line + 2 then Rejected
      else
        (match DecodeHead(s[..line], s[line + 2..end])
         case None => Rejected
         case Some(head) =>
           var body := end + 4;
           if |s| < body + head.length then Incomplete
           else Decoded(Request(head.line, head.headers, s[body..body + head.length]), body + head.length))
    case _ => Incomplete
  }

  /** Every failure leaves the buffer as it is. */
  function HttpStep(s: Bytes): Step<Request> {
    match DecodeHttp(s)
    case Decoded(r, n) => Step(Accepted(r), n)
    case _ => Step(Waiting, 0)
  }

  /** Neither a decoded request nor a rejection is changed by the bytes that follow. */
  lemma OutcomeStays(a: Bytes, b: Bytes)
    requires !DecodeHttp(a).Incomplete?
    ensures DecodeHttp(a + b) == DecodeHttp(a)
  {
    hide DecodeHead, Find;
    FindAppend(a, b, CRLF, 0);
    FindAppend(a, b, HEADER_END, 0);
    var line, end := Find(a, CRLF, 0).value, Find(a, HEADER_END, 0).value;
    if end >= line + 2 {
      assert (a + b)[..line] == a[..line];
      assert (a + b)[line + 2..end] == a[line + 2..end];
      match DecodeHead(a[..line], a[line + 2..end]) {
        case None =>
        case Some(head) =>
          var body := end + 4;
          assert (a + b)[body..body + head.length] == a[body..body + head.length];
      }
    }
  }

  /** The decoder takes nothing or exactly one request, so all results on streams apply. */
  lemma HttpIsLawful()
    ensures Lawful(HttpStep)
  {
    forall s
      ensures StepLaw(HttpStep, s)
    {
      assert s[0..] == s;
    }
    forall a, b
      ensures AppendLaw(HttpStep, a, b)
    {
      if DecodeHttp(a).Decoded? {
        OutcomeStays(a, b);
      } else {
        assert a[0..] == a;
      }
    }
  }

  /** A complete head is rejected exactly if no continuation makes a request of it. */
  lemma RejectedExactly(s: Bytes)
    requires Find(s, HEADER_END, 0).Some?
    ensures DecodeHttp(s).Rejected? <==> forall more :: !DecodeHttp(s + more).Decoded?
  {
    hide DecodeHttp, Find;
    match DecodeHttp(s)
    case Rejected =>
      forall more
        ensures !DecodeHttp(s + more).Decoded?
      {
        OutcomeStays(s, more);
      }
    case Decoded(_, _) => assert s + [] == s;
    case Incomplete => var more := MissingBody(s);
  }

  /** Behind a head that is accepted only bytes of the body can be missing, and any will do. */
  lemma MissingBody(s: Bytes) returns (more: Bytes)
    requires Find(s, HEADER_END, 0).Some? && DecodeHttp(s).Incomplete?
    ensures DecodeHttp(s + more).Decoded?
  {
    hide DecodeHead, Find;
    FindMeans(s, HEADER_END, 0);
    var end := Find(s, HEADER_END, 0).value;
    assert s[end..end + 2] == HEADER_END[..2] == CRLF;
    assert OccursAt(s, CRLF, end);
    FindMeans(s, CRLF, 0);
    var line := Find(s, CRLF, 0).value;
    var head := DecodeHead(s[..line], s[line + 2..end]).value;
    more := seq(head.length, _ => ' ');
    FindAppend(s, more, CRLF, 0);
    FindAppend(s, more, HEADER_END, 0);
    assert (s + more)[..line] == s[..line];
    assert (s + more)[line + 2..end] == s[line + 2..end];
  }

  /** A rejected head blocks its connection for good: no later byte yields a request. */
  lemma {:induction false} RejectionBlocks(buffered: Bytes, pieces: seq<Bytes>)
    requires DecodeHttp(buffered).Rejected?
    ensures Lawful(HttpStep)
    ensures Rounds(HttpStep, buffered, pieces) == Parsed([], buffered + Flatten(pieces))
    decreases |pieces|
  {
    hide DecodeHttp;
    HttpIsLawful();
    if pieces == [] {
      assert buffered + [] == buffered;
    } else {
      var s := buffered + pieces[0];
      OutcomeStays(buffered, pieces[0]);
      assert s[0..] == s;
      RejectionBlocks(s, pieces[1..]);
      assert (buffered + pieces[0]) + Flatten(pieces[1..]) == buffered + (pieces[0] + Flatten(pieces[1..]));
    }
  }

  // ----- the end of the head -----

  lemma CrlfSeparates()
    ensures Separator(CRLF)
  {
  }

  lemma EndIsTwoBreaks(s: Bytes, i: nat)
    ensures OccursAt(s, HEADER_END, i) <==> OccursAt(s, CRLF, i) && OccursAt(s, CRLF, i + 2)
  {
    if i + 4 <= |s| {
      assert s[i..i + 4] == s[i..i + 2] + s[i + 2..i + 4];
      assert HEADER_END == CRLF + CRLF;
      assert HEADER_END[..2] == CRLF && HEADER_END[2..] == CRLF;
      assert s[i..i + 4][..2] == s[i..i + 2] && s[i..i + 4][2..] == s[i + 2..i + 4];
    }
  }

  lemma NoEndBefore(line: Bytes, rest: Bytes, k: nat, i: nat)
    requires Free(line, CRLF) && Absent(rest, HEADER_END, 0, k) && !OccursAt(rest, CRLF, 0)
    requires i < |line| + 2 + k
    ensures !OccursAt(line + CRLF + rest, HEADER_END, i)
  {
    CrlfSeparates();
    var front := line + CRLF;
    var s, n := front + rest, |line| + 2;
    EndIsTwoBreaks(s, i);
    if i < |line| {
      FirstSeparator(line, CRLF, rest);
    } else if i == |line| {
      OccursShift(front, rest, CRLF, 0);
    } else if i == |line| + 1 {
      assert s[i] == '\n';
      if i + 2 <= |s| {
        assert s[i..i + 2][0] == s[i];
      }
    } else {
      OccursShift(front, rest, HEADER_END, i - n);
    }
  }

  /** One line, and what follows its line break. */
  lemma EndBehindLine(line: Bytes, rest: Bytes, k: nat)
    requires Free(line, CRLF) && Find(rest, HEADER_END, 0) == Some(k) && !OccursAt(rest, CRLF, 0)
    ensures Find(line + CRLF + rest, HEADER_END, 0) == Some(|line| + 2 + k)
  {
    hide Find, OccursAt;
    var front := line + CRLF;
    FindMeans(rest, HEADER_END, 0);
    OccursShift(front, rest, HEADER_END, k);
    forall i | 0 <= i < |front| + k
      ensures !OccursAt(front + rest, HEADER_END, i)
    {
      NoEndBefore(line, rest, k, i);
    }
    FindIs(front + rest, HEADER_END, 0, |front| + k);
  }

  lemma EndOfLastLine(line: Bytes, rest: Bytes)
    requires Free(line, CRLF)
    ensures Find(line + HEADER_END + rest, HEADER_END, 0) == Some(|line|)
  {
    CrlfSeparates();
    var s := line + HEADER_END + rest;
    assert s == line + CRLF + (CRLF + rest);
    FirstSeparator(line, CRLF, CRLF + rest);
    assert s[|line|..|line| + 4] == HEADER_END;
    forall i | 0 <= i < |line|
      ensures !OccursAt(s, HEADER_END, i)
    {
      EndIsTwoBreaks(s, i);
    }
    FindIs(s, HEADER_END, 0, |line|);
  }

  lemma Regroup(a: Bytes, b: Bytes, c: Bytes, d: Bytes, e: Bytes)
    ensures (a + b + c) + d + e == a + b + (c + d + e)
  {
  }

  lemma EndOfOneLine(line: Bytes, rest: Bytes)
    requires line != [] && Free(line, CRLF)
    ensures Find(line + HEADER_END + rest, HEADER_END, 0) == Some(|line|)
    ensures !OccursAt(line + HEADER_END + rest, CRLF, 0)
  {
    EndOfLastLine(line, rest);
    CrlfSeparates();
    FirstSeparator(line, CRLF, CRLF + rest);
    assert line + HEADER_END + rest == line + CRLF + (CRLF + rest);
  }

  /** The first empty line is the one behind the lines that were joined. */
  lemma {:induction false} HeadEnd(lines: seq<Bytes>, rest: Bytes)
    requires lines != [] && AllFree(lines, CRLF)
    ensures Find(Join(lines, CRLF) + HEADER_END + rest, HEADER_END, 0) == Some(|Join(lines, CRLF)|)
    ensures !OccursAt(Join(lines, CRLF) + HEADER_END + rest, CRLF, 0)
  {
    hide Find, OccursAt, Free;
    if |lines| == 1 {
      EndOfOneLine(lines[0], rest);
    } else {
      CrlfSeparates();
      var later := Join(lines[1..], CRLF);
      var tail := later + HEADER_END + rest;
      HeadEnd(lines[1..], rest);
      EndBehindLine(lines[0], tail, |later|);
      FirstSeparator(lines[0], CRLF, tail);
      Regroup(lines[0], CRLF, later, HEADER_END, rest);
    }
  }

  // ----- requests on the wire -----

  /** A request as it is sent: the first line, the header lines as they are, and the body. */
  datatype Sent = Sent(line: Bytes, lines: seq<Bytes>, body: Bytes)

  /** A first line, the header lines without the last line break, and what follows the head. */
  function Message(line: Bytes, block: Bytes, rest: Bytes): Bytes {
    line + CRLF + (block + HEADER_END + rest)
  }

  function Print(r: Sent): Bytes {
    Message(r.line, Join(r.lines, CRLF), r.body)
  }

  /** No transfer coding is used, and the header says how long the body is: a Content-Length announces
      it, or there is none and no body. */
  ghost predicate Framed(m: HeaderMap, length: nat) {
    && ("transfer-encoding" in m ==> m["transfer-encoding"] == [] || Lower(m["transfer-encoding"]) == "identity")
    && if "content-length" in m then Announces(m["content-length"], length) else length == 0
  }

  lemma SameBytes(s: Bytes, t: Bytes)
    requires |s| == |t| && forall i :: 0 <= i < |s| ==> LowerByte(s[i]) == t[i]
    ensures Lower(s) == t
  {
  }

  lemma FramingNames()
    ensures Lower("Content-Length") == "content-length" && Lower("Transfer-Encoding") == "transfer-encoding"
  {
    hide Lower;
    SameBytes("Content-Length", "content-length");
    SameBytes("Transfer-Encoding", "transfer-encoding");
  }

  /** The decoder frames exactly so. */
  lemma FramedExactly(m: HeaderMap, length: nat)
    ensures Framed(m, length) <==>
            && (Lower(Lookup(m, "Transfer-Encoding")) == [] || Lower(Lookup(m, "Transfer-Encoding")) == "identity")
            && ContentLength(Lookup(m, "Content-Length")) == Some(length)
  {
    FramingNames();
    LengthExactly(Lookup(m, "Content-Length"), length);
    hide ContentLength, Announces;
  }

  /** There is a header line, every line can be read, and the header says where the body ends.
      Names may be in any case, and values padded in any way. */
  ghost predicate WellFormed(r: Sent) {
    && Free(r.line, CRLF) && ParseRequestLine(r.line).Some?
    && r.lines != [] && AllFree(r.lines, CRLF) && ParseLines(map[], r.lines).Some?
    && Framed(ParseLines(map[], r.lines).value, |r.body|)
  }

  ghost predicate AllWellFormed(rs: seq<Sent>) {
    forall i :: 0 <= i < |rs| ==> WellFormed(rs[i])
  }

  function Meaning(r: Sent): Request
    requires ParseRequestLine(r.line).Some? && ParseLines(map[], r.lines).Some?
  {
    Request(ParseRequestLine(r.line).value, ParseLines(map[], r.lines).value, r.body)
  }

  predicate IsWord(w: Bytes) {
    w != [] && forall i :: 0 <= i < |w| ==> !Space(w[i])
  }

  lemma {:induction false} WordThen(w: Bytes, rest: Bytes)
    requires (forall i :: 0 <= i < |w| ==> !Space(w[i])) && (rest != [] ==> Space(rest[0]))
    ensures Word(w + rest) == w
  {
    if w == [] {
      assert w + rest == rest;
    } else {
      WordThen(w[1..], rest);
      assert (w + rest)[1..] == w[1..] + rest;
    }
  }

  lemma FirstToken(w: Bytes, rest: Bytes)
    requires IsWord(w) && (rest != [] ==> Space(rest[0]))
    ensures Tokens(w + rest) == [w] + Tokens(rest)
  {
    WordThen(w, rest);
    assert SkipSpaces(w + rest) == w + rest;
    assert (w + rest)[|w|..] == rest;
  }

  lemma SkipOne(s: Bytes)
    ensures Tokens([' '] + s) == Tokens(s)
  {
    assert ([' '] + s)[1..] == s;
  }

  lemma ThreeTokens(a: Bytes, b: Bytes, c: Bytes)
    requires IsWord(a) && IsWord(b) && IsWord(c)
    ensures Tokens(a + [' '] + b + [' '] + c) == [a, b, c]
  {
    hide Tokens;
    var third := [' '] + c;
    var second := [' '] + (b + third);
    assert a + [' '] + b + [' '] + c == a + second;
    FirstToken(a, second);
    SkipOne(b + third);
    FirstToken(b, third);
    SkipOne(c);
    FirstToken(c, []);
    assert c + [] == c;
    NoTokens();
  }

  lemma NoTokens()
    ensures Tokens([]) == []
  {
  }

  /** White space in front of a word, and what follows it. */
  lemma TokensOf(spaces: Bytes, w: Bytes, rest: Bytes)
    requires (forall i :: 0 <= i < |spaces| ==> Space(spaces[i])) && (rest == [] || Space(rest[0]))
    requires w == [] ==> rest == []
    requires IsWord(w) || w == []
    ensures Tokens(spaces + (w + rest)) == if w == [] then [] else [w] + Tokens(rest)
  {
    SkipsSpaces(spaces, w + rest);
    if w != [] {
      WordThen(w, rest);
      assert (w + rest)[|w|..] == rest;
    }
  }

  /** Exactly the first lines of three words are accepted, with a known method and version. */
  lemma RequestLineExactly(line: Bytes)
    ensures ParseRequestLine(line).Some? <==>
            var words := Tokens(line);
            && |words| == 3 && (Lower(words[0]) == "get" || Lower(words[0]) == "post")
            && (Lower(words[2]) == "http/1.1" || Lower(words[2]) == "http/1.0")
    ensures ParseRequestLine(line).Some? ==>
            var words, r := Tokens(line), ParseRequestLine(line).value;
            (r.verb == GET <==> Lower(words[0]) == "get") && r.version == Upper(words[2])
  {
    if |Tokens(line)| == 3 {
      VerbExactly(Tokens(line)[0]);
      VerbExactly(Tokens(line)[2]);
    }
    hide Tokens, Lower, Upper, LocalTarget, SplitMap;
  }

  /** Three words make a first line. */
  lemma FirstLineParses(verb: Bytes, target: Bytes, version: Bytes)
    requires IsWord(verb) && IsWord(target) && IsWord(version) && VerbOf(verb).Some? && Supported(version)
    ensures var line := verb + [' '] + target + [' '] + version;
            ParseRequestLine(line) == Some(LineOf(VerbOf(verb).value, target, version)) && Free(line, CRLF)
  {
    ThreeTokens(verb, target, version);
    NoReturn(verb, target, version);
    NoReturnIsFree(verb + [' '] + target + [' '] + version);
  }

  lemma NoReturnIsFree(line: Bytes)
    requires forall i :: 0 <= i < |line| ==> line[i] != '\r'
    ensures Free(line, CRLF)
  {
    forall i | 0 <= i < |line|
      ensures !OccursAt(line, CRLF, i)
    {
      if i + 2 <= |line| {
        assert line[i..i + 2][0] == line[i];
      }
    }
  }

  lemma NoReturn(verb: Bytes, target: Bytes, version: Bytes)
    requires IsWord(verb) && IsWord(target) && IsWord(version)
    ensures var line := verb + [' '] + target + [' '] + version; forall i :: 0 <= i < |line| ==> line[i] != '\r'
  {
    assert Space('\r');
    var line := verb + [' '] + target + [' '] + version;
    var n, k := |verb|, |verb| + 1 + |target|;
    forall i | 0 <= i < |line|
      ensures line[i] != '\r'
    {
      assert line[i] == if i < n then verb[i] else if i == n then ' ' else if i < k then target[i - n - 1]
                        else if i == k then ' ' else version[i - k - 1];
    }
  }

  // ----- the decoder accepts exactly the well-formed requests -----

  lemma PrintMore(r: Sent, rest: Bytes)
    ensures Print(r) + rest == Message(r.line, Join(r.lines, CRLF), r.body + rest)
    ensures |Print(r)| == |r.line| + 2 + |Join(r.lines, CRLF)| + 4 + |r.body|
  {
    hide Join;
  }

  lemma HeadParses(r: Sent)
    requires WellFormed(r)
    ensures DecodeHead(r.line, Join(r.lines, CRLF)) == Some(Head(Meaning(r).line, Meaning(r).headers, |r.body|))
  {
    CrlfSeparates();
    SplitJoin(r.lines, CRLF);
    FramedExactly(ParseLines(map[], r.lines).value, |r.body|);
    hide ParseRequestLine, Join, ParseLines, ContentLength, Lookup, Framed, Lower;
  }

  lemma WellFormedParts(r: Sent)
    requires WellFormed(r)
    ensures Free(r.line, CRLF) && r.lines != [] && AllFree(r.lines, CRLF)
    ensures Meaning(r) == Request(Meaning(r).line, Meaning(r).headers, r.body)
  {
  }

  /** A well-formed request decodes to what it means, whatever follows it. */
  lemma RequestRoundTrip(r: Sent, rest: Bytes)
    requires WellFormed(r)
    ensures DecodeHttp(Print(r) + rest) == Decoded(Meaning(r), |Print(r)|)
  {
    var m := Meaning(r);
    hide *;
    WellFormedParts(r);
    HeadParses(r);
    PrintMore(r, rest);
    DecodeShape(r.line, r.lines, Head(m.line, m.headers, |r.body|), r.body, rest);
  }

  /** A request whose header has neither a transfer coding nor a length has no body: it ends with its
      head, whatever follows. */
  lemma NoLengthNoBody(line: Bytes, lines: seq<Bytes>, rest: Bytes)
    requires Free(line, CRLF) && ParseRequestLine(line).Some?
    requires lines != [] && AllFree(lines, CRLF) && ParseLines(map[], lines).Some?
    requires var m := ParseLines(map[], lines).value; "transfer-encoding" !in m && "content-length" !in m
    ensures DecodeHttp(Message(line, Join(lines, CRLF), rest)) ==
            Decoded(Request(ParseRequestLine(line).value, ParseLines(map[], lines).value, []),
                    |line| + 2 + |Join(lines, CRLF)| + 4)
  {
    var r := Sent(line, lines, []);
    assert Framed(ParseLines(map[], lines).value, 0);
    hide DecodeHttp, ParseRequestLine, ParseLines, Join, Free, Framed, AllFree;
    PrintMore(r, rest);
    assert [] + rest == rest;
    RequestRoundTrip(r, rest);
  }

  lemma DecodeShape(line: Bytes, items: seq<Bytes>, head: Head, body: Bytes, rest: Bytes)
    requires Free(line, CRLF) && items != [] && AllFree(items, CRLF)
    requires DecodeHead(line, Join(items, CRLF)) == Some(head) && head.length == |body|
    ensures DecodeHttp(Message(line, Join(items, CRLF), body + rest)) ==
            Decoded(Request(head.line, head.headers, body), |line| + 2 + |Join(items, CRLF)| + 4 + |body|)
  {
    hide *;
    var block := Join(items, CRLF);
    MessageEnds(line, items, body + rest);
    Slices(line, block, body, rest);
    DecodeAt(Message(line, block, body + rest), |line|, |line| + 2 + |block|, head);
  }

  lemma DecodeAt(s: Bytes, line: nat, end: nat, head: Head)
    requires Find(s, CRLF, 0) == Some(line) && Find(s, HEADER_END, 0) == Some(end) && line + 2 <= end
    requires DecodeHead(s[..line], s[line + 2..end]) == Some(head) && end + 4 + head.length <= |s|
    ensures DecodeHttp(s) == Decoded(Request(head.line, head.headers, s[end + 4..end + 4 + head.length]),
                                     end + 4 + head.length)
  {
    hide Find, DecodeHead;
  }

  /** Where the decoder finds the two ends of a message head. */
  lemma MessageEnds(line: Bytes, items: seq<Bytes>, rest: Bytes)
    requires Free(line, CRLF) && items != [] && AllFree(items, CRLF)
    ensures var s := Message(line, Join(items, CRLF), rest);
            && Find(s, CRLF, 0) == Some(|line|)
            && Find(s, HEADER_END, 0) == Some(|line| + 2 + |Join(items, CRLF)|)
  {
    CrlfSeparates();
    var block := Join(items, CRLF);
    FirstSeparator(line, CRLF, block + HEADER_END + rest);
    HeadEnd(items, rest);
    EndBehindLine(line, block + HEADER_END + rest, |block|);
  }

  lemma PrintShape(line: Bytes, block: Bytes, body: Bytes, rest: Bytes)
    ensures (line + CRLF + (block + CRLF) + CRLF + body) + rest == Message(line, block, body + rest)
  {
    assert HEADER_END == CRLF + CRLF;
  }

  lemma Slices(line: Bytes, block: Bytes, body: Bytes, rest: Bytes)
    ensures var s := Message(line, block, body + rest);
            var n := |line| + 2 + |block|;
            && n + 4 + |body| <= |s| && s[..|line|] == line && s[|line| + 2..n] == block
            && s[n + 4..n + 4 + |body|] == body
  {
  }

  /** A block of lines: it does not begin or end with a line break, and no two breaks meet. */
  ghost predicate Tidy(block: Bytes) {
    && !OccursAt(block, CRLF, 0) && block != [] && !(|block| >= 2 && OccursAt(block, CRLF, |block| - 2))
    && forall i :: 0 <= i < |block| ==> !OccursAt(block, HEADER_END, i)
  }

  lemma {:induction false} JoinPieces(block: Bytes, begin: nat)
    requires Tidy(block) && begin < |block| && !OccursAt(block, CRLF, begin)
    ensures Pieces(block, CRLF, begin) != [] && Join(Pieces(block, CRLF, begin), CRLF) == block[begin..]
    decreases |block| - begin
  {
    FindMeans(block, CRLF, begin);
    hide Find, OccursAt;
    match Find(block, CRLF, begin)
    case None =>
    case Some(end) =>
      EndIsTwoBreaks(block, end);
      var piece, later := block[begin..end], Pieces(block, CRLF, end + 2);
      JoinPieces(block, end + 2);
      assert Pieces(block, CRLF, begin) == [piece] + later && ([piece] + later)[1..] == later;
      assert block[begin..] == piece + CRLF + block[end + 2..];
  }

  lemma OccursWithin(s: Bytes, from: nat, to: nat, pat: Bytes, i: nat)
    requires from <= to <= |s|
    ensures OccursAt(s[from..to], pat, i) ==> OccursAt(s, pat, from + i)
  {
    if i + |pat| <= to - from {
      assert s == s[..from] + (s[from..to] + s[to..]);
      OccursShift(s[..from], s[from..to] + s[to..], pat, i);
      OccursInFront(s[from..to], s[to..], pat, i);
    }
  }

  lemma BlockIsTidy(s: Bytes, line: nat, end: nat)
    requires Find(s, CRLF, 0) == Some(line) && Find(s, HEADER_END, 0) == Some(end) && line + 2 <= end
    ensures Tidy(s[line + 2..end])
  {
    FindMeans(s, CRLF, 0);
    FindMeans(s, HEADER_END, 0);
    hide Find, OccursAt;
    BlockBounds(s, line, end);
    var block := s[line + 2..end];
    forall i | 0 <= i < |block|
      ensures !OccursAt(block, HEADER_END, i)
    {
      OccursWithin(s, line + 2, end, HEADER_END, i);
    }
  }

  lemma BlockBounds(s: Bytes, line: nat, end: nat)
    requires OccursAt(s, CRLF, line) && OccursAt(s, HEADER_END, end) && line + 2 <= end
    requires forall i :: 0 <= i < end ==> !OccursAt(s, HEADER_END, i)
    ensures var block := s[line + 2..end];
      && block != [] && !OccursAt(block, CRLF, 0) && !(|block| >= 2 && OccursAt(block, CRLF, |block| - 2))
  {
    var block := s[line + 2..end];
    EndIsTwoBreaks(s, end);
    EndIsTwoBreaks(s, line);
    OccursWithin(s, line + 2, end, CRLF, 0);
    if |block| >= 2 {
      EndIsTwoBreaks(s, end - 2);
      OccursWithin(s, line + 2, end, CRLF, |block| - 2);
    }
    hide OccursAt;
  }

  lemma PrefixIsMessage(s: Bytes, line: nat, end: nat, n: nat)
    requires OccursAt(s, CRLF, line) && OccursAt(s, HEADER_END, end) && line + 2 <= end && end + 4 <= n <= |s|
    ensures Message(s[..line], s[line + 2..end], s[end + 4..n]) == s[..n]
  {
    assert s[..n] == s[..line] + s[line..line + 2] + (s[line + 2..end] + s[end..end + 4] + s[end + 4..n]);
  }

  lemma BlockSplits(block: Bytes)
    requires Tidy(block)
    ensures var lines := Split(block, CRLF); lines != [] && AllFree(lines, CRLF) && Join(lines, CRLF) == block
  {
    JoinPieces(block, 0);
    assert block[0..] == block;
    hide Pieces, Join;
    var lines := Split(block, CRLF);
    forall i | 0 <= i < |lines|
      ensures lines[i] != [] && Free(lines[i], CRLF)
    {
      PiecesAreFree(block, CRLF, 0, lines[i]);
    }
  }

  lemma DecodedParts(s: Bytes) returns (line: nat, end: nat, head: Head)
    requires DecodeHttp(s).Decoded?
    ensures Find(s, CRLF, 0) == Some(line) && Find(s, HEADER_END, 0) == Some(end) && line + 2 <= end
    ensures DecodeHead(s[..line], s[line + 2..end]) == Some(head) && end + 4 + head.length <= |s|
    ensures DecodeHttp(s) == Decoded(Request(head.line, head.headers, s[end + 4..end + 4 + head.length]),
                                     end + 4 + head.length)
  {
    hide Find, DecodeHead;
    line, end := Find(s, CRLF, 0).value, Find(s, HEADER_END, 0).value;
    head := DecodeHead(s[..line], s[line + 2..end]).value;
  }

  lemma HeadParts(line: Bytes, block: Bytes, head: Head)
    requires DecodeHead(line, block) == Some(head)
    ensures ParseRequestLine(line) == Some(head.line) && ParseLines(map[], Split(block, CRLF)) == Some(head.headers)
    ensures Framed(head.headers, head.length)
  {
    FramedExactly(head.headers, head.length);
    hide ParseRequestLine, ParseLines, ContentLength, Lookup, Lower, Split, Framed;
  }

  lemma FirstLineFree(s: Bytes, line: nat)
    requires Find(s, CRLF, 0) == Some(line)
    ensures Free(s[..line], CRLF) && OccursAt(s, CRLF, line)
  {
    FindMeans(s, CRLF, 0);
    PieceIsFree(s, CRLF, 0, line);
    assert s[0..line] == s[..line];
  }

  /** Conversely, the bytes of any decoded request are those of a well-formed one. */
  lemma AcceptedIsWellFormed(s: Bytes) returns (r: Sent)
    requires DecodeHttp(s).Decoded?
    ensures WellFormed(r) && Meaning(r) == DecodeHttp(s).request && Print(r) == s[..DecodeHttp(s).length]
  {
    hide Find, DecodeHttp, DecodeHead, Framed, OccursAt, Message, Split, Join, ParseLines, ParseRequestLine, Free;
    var line, end, head := DecodedParts(s);
    var block, n := s[line + 2..end], end + 4 + head.length;
    r := Sent(s[..line], Split(block, CRLF), s[end + 4..n]);
    HeadParts(s[..line], block, head);
    FirstLineFree(s, line);
    FindMeans(s, HEADER_END, 0);
    BlockIsTidy(s, line, end);
    BlockSplits(block);
    PrefixIsMessage(s, line, end, n);
  }

  ghost function Packets(rs: seq<Sent>): (ps: seq<Packet<Request>>)
    requires AllWellFormed(rs)
    ensures |ps| == |rs|
  {
    seq(|rs|, i requires 0 <= i < |rs| => Packet(Print(rs[i]), Meaning(rs[i])))
  }

  lemma PacketsDecode(rs: seq<Sent>)
    requires AllWellFormed(rs)
    ensures WellSent(HttpStep, Packets(rs))
  {
    forall i | 0 <= i < |rs|
      ensures HttpStep(Packets(rs)[i].bytes) == Step(Accepted(Packets(rs)[i].msg), |Packets(rs)[i].bytes|)
    {
      RequestRoundTrip(rs[i], []);
      assert Print(rs[i]) + [] == Print(rs[i]);
    }
  }

  /** Pipelining: well-formed requests, cut into reads in any way, are delivered exactly, in
      order, each as soon as it is complete; the buffer holds the beginning of the next. */
  lemma HttpDelivery(rs: seq<Sent>, tail: Bytes, pieces: seq<Bytes>, rounds: nat) returns (k: nat)
    requires AllWellFormed(rs)
    requires DecodeHttp(tail).Incomplete?
    requires Flatten(pieces) == Wire(Packets(rs), tail) && rounds <= |pieces|
    ensures Lawful(HttpStep) && k <= |rs|
    ensures var p := Rounds(HttpStep, [], pieces[..rounds]);
            p.msgs == Messages(Packets(rs))[..k] && if k < |rs| then p.rest < Print(rs[k]) else p.rest <= tail
    ensures Rounds(HttpStep, [], pieces) == Parsed(Messages(Packets(rs)), tail)
  {
    HttpIsLawful();
    PacketsDecode(rs);
    hide DecodeHttp, Print, WellFormed, Meaning, Wire, WellSent;
    var part;
    k, part := WireDelivery(HttpStep, Packets(rs), tail, pieces, rounds);
    assert part[0..] == part && tail[0..] == tail;
    assert StepLaw(HttpStep, tail);
  }

  // ----- the parts of a request as a client chooses them -----

  lemma {:induction false} AllDigits(d: Bytes)
    requires Digits(d)
    ensures LeadingDigits(d) == d && CString(d) == d && SkipSpaces(d) == d
  {
    if d != [] {
      AllDigits(d[1..]);
      assert [d[0]] + d[1..] == d;
    }
  }

  /** A printed length is accepted iff it is within the limit. */
  lemma LengthRoundTrip(n: nat)
    ensures ContentLength(Decimal(n)) == if n <= MAX_BODY then Some(n) else None
  {
    var d := Decimal(n);
    AllDigits(d);
    DecimalValue(n);
    assert IsDigit(d[0]) && d[0..] == d;
  }

  /** Exactly the two methods are known, in any case. */
  lemma VerbExactly(token: Bytes)
    ensures VerbOf(token) == Some(GET) <==> Lower(token) == "get"
    ensures VerbOf(token) == Some(POST) <==> Lower(token) == "post"
    ensures Supported(token) <==> Lower(token) == "http/1.1" || Lower(token) == "http/1.0"
  {
    SameInBothCases(token, "get");
    SameInBothCases(token, "post");
    SameInBothCases(token, "http/1.1");
    SameInBothCases(token, "http/1.0");
    KnownWords();
    hide Lower, Upper;
  }

  lemma KnownWords()
    ensures Lower("get") == "get" && Upper("get") == "GET" && Lower("post") == "post" && Upper("post") == "POST"
    ensures Lower("http/1.1") == "http/1.1" && Upper("http/1.1") == "HTTP/1.1"
    ensures Lower("http/1.0") == "http/1.0" && Upper("http/1.0") == "HTTP/1.0"
  {
    hide Lower, Upper;
    SameBytes("get", "get");
    SameBytes("post", "post");
    SameBytes("http/1.1", "http/1.1");
    SameBytes("http/1.0", "http/1.0");
    UpperBytes("get", "GET");
    UpperBytes("post", "POST");
    UpperBytes("http/1.1", "HTTP/1.1");
    UpperBytes("http/1.0", "HTTP/1.0");
  }

  lemma UpperBytes(s: Bytes, t: Bytes)
    requires |s| == |t| && forall i :: 0 <= i < |s| ==> UpperByte(s[i]) == t[i]
    ensures Upper(s) == t
  {
  }

  /** Without a query the whole target is the path, with a slash in front. */
  lemma PathRoundTrip(verb: Verb, path: Bytes, version: Bytes)
    requires Free(path, "?") && Free(path, "://") && Free(path, "#")
    ensures LineOf(verb, path, version) ==
            RequestLine(verb, Upper(version), if "/" <= path then path else "/" + path, [], map[])
  {
    FindNone(path, "://", 0);
    FindNone(path, "#", 0);
    FindNone(path, "?", 0);
  }

  /** A path and a query come back as they were put together, with a slash in front of the path. */
  lemma TargetRoundTrip(verb: Verb, path: Bytes, query: Bytes, version: Bytes)
    requires Free(path, "?")
    requires Free(path + "?" + query, "://") && Free(path + "?" + query, "#")
    ensures LineOf(verb, path + "?" + query, version) ==
            RequestLine(verb, Upper(version), if "/" <= path then path else "/" + path, query,
                        SplitMap(map[], query, "&", "="))
  {
    var target: Bytes := path + "?" + query;
    FindNone(target, "://", 0);
    FindNone(target, "#", 0);
    FirstSeparator(path, "?", query);
    assert target[..|path|] == path && target[|path| + 1..] == query;
  }

  /** A fragment does not matter. */
  lemma FragmentDropped(local: Bytes, fragment: Bytes)
    requires Free(local, "#") && Free(local + "#" + fragment, "://")
    ensures LocalTarget(local + "#" + fragment) == local
  {
    FindNone(local + "#" + fragment, "://", 0);
    FirstSeparator(local, "#", fragment);
  }

  /** Neither do a scheme and an authority in front of a path. */
  lemma AuthorityDropped(scheme: Bytes, authority: Bytes, path: Bytes)
    requires Free(scheme, "://") && Free(authority, "/") && "/" <= path && Free(path, "#")
    ensures LocalTarget(scheme + "://" + (authority + path)) == path
  {
    hide Find, OccursAt;
    var tail, front: Bytes := authority + path, scheme + "://";
    FirstSeparator(scheme, "://", tail);
    PathBehindAuthority(authority, path);
    FindShift(front, tail, "/", 0);
    FindNone(path, "#", 0);
    hide Free, Absent;
    assert |front| == |scheme| + 3;
    assert (front + tail)[|front| + |authority|..] == path;
  }

  lemma PathBehindAuthority(authority: Bytes, path: Bytes)
    requires Free(authority, "/") && "/" <= path
    ensures Find(authority + path, "/", 0) == Some(|authority|)
  {
    var rest := path[1..];
    assert authority + path == authority + "/" + rest;
    FirstSeparator(authority, "/", rest);
  }

  /** Query parameters come back as a map, a later value for the same key winning. */
  lemma QueryRoundTrip(pairs: seq<Entry>)
    requires forall i :: 0 <= i < |pairs| ==> pairs[i].0 != [] && Free(pairs[i].0, "=")
    requires AllFree(Items(pairs, "="), "&")
    ensures SplitMap(map[], Join(Items(pairs, "="), "&"), "&", "=") == Assigned(map[], pairs)
  {
    MapRoundTrip(pairs, "&", "=");
  }
}
