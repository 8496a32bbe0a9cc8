/** receiveResponse of src/lib/nh-network/HTTPClient.c: status line, header lines, interim
    responses and the framing of the body (section 6.3 of RFC 9112). */
module HttpResponse {
  import opened CText
  import opened HttpText
  import opened HttpConnection
  import opened HttpBody

  const HEAD_LINE_SIZE: nat := 8192
  const MAX_HEADER_SIZE: nat := 65536
  const VALUE_SIZE: nat := 256

  datatype Failure = NoResponse | MalformedStatusLine | MalformedHeaders | HeadersTooLarge | BodyUnreadable

  /** The response structure as the caller finds it. */
  datatype Response = Response(failure: Option<Failure>, status: int, headers: string, body: string)

  // ---- the status line ----

  /** sscanf(line, "HTTP/%d.%d %d"): the status, when all three numbers are there. */
  function ScanStatus(line: string): Option<int> {
    if !("HTTP/" <= line) then None
    else
      var major := ScanInt(line[5..]);
      if major.NoMatch? || major.rest == "" || major.rest[0] != '.' then None
      else
        var minor := ScanInt(major.rest[1..]);
        if minor.NoMatch? then None
        else
          var status := ScanInt(SkipSpaces(minor.rest));
          if status.NoMatch? then None else Some(status.value)
  }

  /** status-line of section 4 of RFC 9112, with versions of any length. */
  function StatusLine(major: string, minor: string, code: string, reason: string): string {
    "HTTP/" + major + "." + minor + " " + code + reason
  }

  /** Of a proper status line the code is what counts. */
  lemma StatusScanned(major: string, minor: string, code: string, reason: string)
    requires major != "" && AllDigits(major, 10) && minor != "" && AllDigits(minor, 10)
    requires code != "" && AllDigits(code, 10) && Value(code, 10) < 0x8000_0000
    requires reason == "" || Digit(reason[0]) >= 10
    ensures ScanStatus(StatusLine(major, minor, code, reason)) == Some(Value(code, 10))
  {
    hide AllDigits, Value, ScanInt, SkipSpaces;
    var line := StatusLine(major, minor, code, reason);
    var afterMinor := " " + code + reason;
    var afterMajor := "." + minor + afterMinor;
    assert line == "HTTP/" + (major + afterMajor);
    assert line[5..] == major + afterMajor;
    ScanPlain(major, afterMajor);
    assert afterMajor[1..] == minor + afterMinor;
    ScanPlain(minor, afterMinor);
    SkipOne(code, reason);
    assert afterMinor == " " + (code + reason);
    ScanPlain(code, reason);
  }

  lemma SkipOne(code: string, reason: string)
    requires code != "" && AllDigits(code, 10)
    ensures SkipSpaces(" " + (code + reason)) == code + reason
  {
    DigitAt(code, 10, 0);
    NotSpecial(code[0], 10);
    assert (" " + (code + reason))[1..] == code + reason;
    assert (code + reason)[0] == code[0];
  }

  // ---- header lines ----

  datatype HeaderLines = LinesFail(failure: Failure) | Lines(lines: seq<string>, rest: string)

  /** The header loop, with `length` characters of the block used already. */
  function HeadersFrom(s: string, length: nat): HeaderLines
    decreases |s|
  {
    LineShortens(s, HEAD_LINE_SIZE, "");
    var r := LineFrom(s, HEAD_LINE_SIZE, "");
    if r.LineFail? then LinesFail(MalformedHeaders)
    else
      var line := CStr(r.text);
      if line == "" then Lines([], r.rest)
      else if length + |line| + 2 > MAX_HEADER_SIZE then LinesFail(HeadersTooLarge)
      else Prepend([line], HeadersFrom(r.rest, length + |line| + 2))
  }

  function Prepend(lines: seq<string>, h: HeaderLines): HeaderLines {
    if h.LinesFail? then h else Lines(lines + h.lines, h.rest)
  }

  lemma {:induction false} HeadersShorten(s: string, length: nat)
    ensures HeadersFrom(s, length).Lines? ==> |HeadersFrom(s, length).rest| < |s|
    decreases |s|
  {
    hide LineFrom, CStr;
    LineShortens(s, HEAD_LINE_SIZE, "");
    var r := LineFrom(s, HEAD_LINE_SIZE, "");
    if r.Line? { HeadersShorten(r.rest, length + |CStr(r.text)| + 2); }
  }

  // ---- heads ----

  datatype Head = HeadFail(failure: Failure, status: int) | Head(status: int, lines: seq<string>, rest: string)

  /** One status line and its header lines; `status` is that of the response before. */
  function OneHead(s: string, status: int): Head {
    var r := LineFrom(s, HEAD_LINE_SIZE, "");
    if r.LineFail? then HeadFail(NoResponse, status)
    else
      var scanned := ScanStatus(CStr(r.text));
      if scanned.None? then HeadFail(MalformedStatusLine, status)
      else
        match HeadersFrom(r.rest, 0)
        case LinesFail(failure) => HeadFail(failure, scanned.value)
        case Lines(lines, rest) => Head(scanned.value, lines, rest)
  }

  predicate IsInterim(status: int) {
    100 <= status < 200
  }

  lemma OneHeadShortens(s: string, status: int)
    ensures OneHead(s, status).Head? ==> |OneHead(s, status).rest| < |s|
  {
    hide LineFrom, CStr, ScanStatus, HeadersFrom;
    LineShortens(s, HEAD_LINE_SIZE, "");
    var r := LineFrom(s, HEAD_LINE_SIZE, "");
    if r.Line? { HeadersShorten(r.rest, 0); }
  }

  /** The loop over interim responses. */
  function HeadFrom(s: string, status: int): Head
    decreases |s|
  {
    OneHeadShortens(s, status);
    var h := OneHead(s, status);
    if h.Head? && IsInterim(h.status) then HeadFrom(h.rest, h.status) else h
  }

  // ---- framing ----

  predicate NoBody(verb: string, status: int) {
    SameIgnoringCase(verb, "HEAD") || status == 204 || status == 304
  }

  predicate Chunked(lines: seq<string>) {
    var coding := Lookup(lines, "Transfer-Encoding", VALUE_SIZE);
    coding.Some? && ContainsIgnoringCase(coding.value, "chunked")
  }

  /** The body that the list of received header lines asks for. */
  function FramedBody(verb: string, status: int, lines: seq<string>, s: string, broken: bool): Body {
    if NoBody(verb, status) then Body(true, "", s)
    else if Chunked(lines) then ChunkedFrom(s, broken)
    else
      match Lookup(lines, "Content-Length", VALUE_SIZE)
      case None => BodyFrom(s, SIZE_MAX, broken)
      case Some(text) =>
        var length := Strtoull(text, 10);
        if length.None? then Body(false, "", s) else BodyFrom(s, length.value, broken)
  }

  function WithBody(head: Head, body: Body): Response
    requires head.Head?
  {
    Response(if body.ok then None else Some(BodyUnreadable), head.status, Join(head.lines), body.data)
  }

  /** receiveResponse in terms of the stream. */
  function ResponseFrom(s: string, verb: string, broken: bool): Response {
    match HeadFrom(s, 0)
    case HeadFail(failure, status) => Response(Some(failure), status, "", "")
    case Head(status, lines, rest) => WithBody(Head(status, lines, rest), FramedBody(verb, status, lines, rest, broken))
  }

  // ---- what a server sends ----

  datatype HeadText = HeadText(statusLine: string, status: int, lines: seq<string>)

  ghost predicate HeadLine(line: string) {
    '\n' !in line && '\r' !in line && '\0' !in line && |line| < HEAD_LINE_SIZE
  }

  ghost predicate WellFormedHead(h: HeadText) {
    && HeadLine(h.statusLine) && ScanStatus(h.statusLine) == Some(h.status)
    && (forall line <- h.lines :: HeadLine(line) && line != "")
    && |Join(h.lines)| <= MAX_HEADER_SIZE
  }

  ghost predicate Interim(h: HeadText) {
    WellFormedHead(h) && IsInterim(h.status)
  }

  function EncodeHead(h: HeadText): string {
    h.statusLine + "\r\n" + Join(h.lines) + "\r\n"
  }

  function EncodeHeads(heads: seq<HeadText>): string {
    if heads == [] then "" else EncodeHead(heads[0]) + EncodeHeads(heads[1..])
  }

  lemma HeadLineRead(line: string, rest: string)
    requires HeadLine(line)
    ensures var r := LineFrom(line + "\r\n" + rest, HEAD_LINE_SIZE, "");
      r.Line? && CStr(r.text) == line && r.rest == rest
  {
    LineRead(line, rest, HEAD_LINE_SIZE);
    CStrWhole(line);
  }

  lemma {:induction false} HeadersRead(lines: seq<string>, rest: string, length: nat)
    requires forall line <- lines :: HeadLine(line) && line != ""
    requires length + |Join(lines)| <= MAX_HEADER_SIZE
    ensures HeadersFrom(Join(lines) + "\r\n" + rest, length) == Lines(lines, rest)
  {
    hide LineFrom, CStr, HeadLine;
    if lines == [] {
      assert "" + "\r\n" + rest == "\r\n" + rest;
      EmptyHeadLine();
      HeadLineRead("", rest);
    } else {
      var line, more := lines[0], Join(lines[1..]) + "\r\n" + rest;
      assert line in lines;
      assert Join(lines) + "\r\n" + rest == line + "\r\n" + more;
      HeadLineRead(line, more);
      HeadersRead(lines[1..], rest, length + |line| + 2);
      assert [line] + lines[1..] == lines;
    }
  }

  lemma EmptyHeadLine()
    ensures HeadLine("")
  {
  }

  lemma HeadRead(h: HeadText, rest: string, status: int)
    requires WellFormedHead(h)
    ensures OneHead(EncodeHead(h) + rest, status) == Head(h.status, h.lines, rest)
  {
    hide LineFrom, CStr, HeadLine, ScanStatus, HeadersFrom, Join;
    var more := Join(h.lines) + "\r\n" + rest;
    assert EncodeHead(h) + rest == h.statusLine + "\r\n" + more;
    HeadLineRead(h.statusLine, more);
    HeadersRead(h.lines, rest, 0);
  }

  lemma {:induction false} HeadsRead(interim: seq<HeadText>, final: HeadText, rest: string, status: int)
    requires forall h <- interim :: Interim(h)
    requires WellFormedHead(final) && !Interim(final)
    ensures HeadFrom(EncodeHeads(interim) + EncodeHead(final) + rest, status) == Head(final.status, final.lines, rest)
  {
    hide OneHead, WellFormedHead, EncodeHead;
    if interim == [] {
      assert "" + EncodeHead(final) + rest == EncodeHead(final) + rest;
      HeadRead(final, rest, status);
    } else {
      var h, more := interim[0], EncodeHeads(interim[1..]) + EncodeHead(final) + rest;
      assert h in interim;
      assert EncodeHeads(interim) + EncodeHead(final) + rest == EncodeHead(h) + more;
      HeadRead(h, more, status);
      HeadsRead(interim[1..], final, rest, h.status);
    }
  }

  /** Interim responses are skipped; the caller gets the final status, the final header lines and
      the body that the final header frames. */
  lemma ResponseRead(interim: seq<HeadText>, final: HeadText, payload: string, verb: string, broken: bool)
    requires forall h <- interim :: Interim(h)
    requires WellFormedHead(final) && !Interim(final)
    ensures ResponseFrom(EncodeHeads(interim) + EncodeHead(final) + payload, verb, broken)
         == var body := FramedBody(verb, final.status, final.lines, payload, broken);
            Response(if body.ok then None else Some(BodyUnreadable), final.status, Join(final.lines), body.data)
  {
    hide HeadFrom, FramedBody, Join;
    HeadsRead(interim, final, payload, 0);
  }

  /** A chunked response: the transfer coding decides, whatever Content-Length says. */
  lemma ChunkedResponse(interim: seq<HeadText>, final: HeadText, verb: string, chunks: seq<Chunk>, last: Chunk,
                        trailers: seq<string>, tail: string, broken: bool)
    requires forall h <- interim :: Interim(h)
    requires WellFormedHead(final) && !Interim(final) && !NoBody(verb, final.status) && Chunked(final.lines)
    requires forall c <- chunks :: WellFormed(c)
    requires ChunkHead(last.size, last.extension, 0) && forall line <- trailers :: Trailer(line)
    ensures var payload := EncodeChunks(chunks) + EncodeEnd(last, trailers) + tail;
      ResponseFrom(EncodeHeads(interim) + EncodeHead(final) + payload, verb, broken)
      == Response(None, final.status, Join(final.lines), Data(chunks))
  {
    hide ResponseFrom, ChunkedFrom, WellFormedHead, Interim, WellFormed, Chunked, NoBody, Data, EncodeEnd, EncodeChunks;
    var payload := EncodeChunks(chunks) + EncodeEnd(last, trailers) + tail;
    ResponseRead(interim, final, payload, verb, broken);
    ChunkedDecodes(chunks, last, trailers, tail, broken);
  }

  /** A response with a Content-Length and no chunked coding: exactly that many bytes, or a failure
      when the stream ends before. */
  lemma LengthResponse(interim: seq<HeadText>, final: HeadText, verb: string, digits: string, payload: string,
                       broken: bool)
    requires forall h <- interim :: Interim(h)
    requires WellFormedHead(final) && !Interim(final) && !NoBody(verb, final.status) && !Chunked(final.lines)
    requires Lookup(final.lines, "Content-Length", VALUE_SIZE) == Some(digits)
    requires digits != "" && AllDigits(digits, 10) && Value(digits, 10) < SIZE_MAX
    ensures var length := Value(digits, 10);
      ResponseFrom(EncodeHeads(interim) + EncodeHead(final) + payload, verb, broken)
      == if |payload| >= length then Response(None, final.status, Join(final.lines), payload[..length])
         else Response(Some(BodyUnreadable), final.status, Join(final.lines), payload)
  {
    hide ResponseFrom, WellFormedHead, Interim, Chunked, NoBody, Strtoull, Value, AllDigits, Lookup;
    ResponseRead(interim, final, payload, verb, broken);
    StrtoullPlain(digits, "", 10);
    assert digits + "" == digits;
  }

  /** A response without either header ends with the connection; one that has no body by its
      status or method never reads one, whatever its header says. */
  lemma OtherResponse(interim: seq<HeadText>, final: HeadText, verb: string, payload: string, broken: bool)
    requires forall h <- interim :: Interim(h)
    requires WellFormedHead(final) && !Interim(final)
    ensures var r := ResponseFrom(EncodeHeads(interim) + EncodeHead(final) + payload, verb, broken);
      && r.status == final.status && r.headers == Join(final.lines)
      && (NoBody(verb, final.status) ==> r.failure == None && r.body == "")
      && (!NoBody(verb, final.status) && !Chunked(final.lines)
          && Lookup(final.lines, "Content-Length", VALUE_SIZE) == None ==>
            r.body == payload && r.failure == if broken then Some(BodyUnreadable) else None)
  {
    hide ResponseFrom, WellFormedHead, Interim, Chunked, NoBody, Lookup;
    ResponseRead(interim, final, payload, verb, broken);
  }

  /** Section 6.3 of RFC 9112 wants an invalid Content-Length to be an error. Here "-1" is accepted,
      and the body then lasts until the connection closes. */
  lemma NegativeLengthAccepted(final: HeadText, verb: string, payload: string)
    requires WellFormedHead(final) && !Interim(final) && !NoBody(verb, final.status) && !Chunked(final.lines)
    requires Lookup(final.lines, "Content-Length", VALUE_SIZE) == Some("-1")
    ensures ResponseFrom(EncodeHead(final) + payload, verb, false)
         == Response(None, final.status, Join(final.lines), payload)
  {
    hide ResponseFrom, WellFormedHead, Interim, Chunked, NoBody, Lookup;
    ResponseRead([], final, payload, verb, false);
    assert "" + EncodeHead(final) == EncodeHead(final);
    assert "-1"[1..] == "1";
    LeadingDigitsStop("1", "", 10);
    assert "1" + "" == "1";
    assert Value("1", 10) == 1;
  }

  /** The value starts with a digit, after blanks and a sign at most. */
  predicate StartsWithNumber(text: string) {
    var t := SkipSpaces(text);
    var u := if t != "" && (t[0] == '-' || t[0] == '+') then t[1..] else t;
    u != "" && Digit(u[0]) < 10
  }

  /** What the code takes for a valid length is wider than 1*DIGIT: it is an error exactly when the
      value does not even start with a number, and otherwise whatever follows the number is
      ignored. */
  lemma LengthAccepted(interim: seq<HeadText>, final: HeadText, verb: string, text: string, payload: string,
                       broken: bool)
    requires forall h <- interim :: Interim(h)
    requires WellFormedHead(final) && !Interim(final) && !NoBody(verb, final.status) && !Chunked(final.lines)
    requires Lookup(final.lines, "Content-Length", VALUE_SIZE) == Some(text)
    ensures Strtoull(text, 10).Some? <==> StartsWithNumber(text)
    ensures ResponseFrom(EncodeHeads(interim) + EncodeHead(final) + payload, verb, broken)
         == WithBody(Head(final.status, final.lines, payload),
                     if StartsWithNumber(text) then BodyFrom(payload, Strtoull(text, 10).value, broken)
                     else Body(false, "", payload))
  {
    hide ResponseFrom, WellFormedHead, Interim, Chunked, NoBody, Lookup, SkipSpaces, Value;
    ResponseRead(interim, final, payload, verb, broken);
  }

  // ---- received lines have no carriage return ----

  lemma {:induction false} LineHasNoCR(s: string, size: nat, line: string)
    requires '\r' !in line
    ensures LineFrom(s, size, line).Line? ==> '\r' !in LineFrom(s, size, line).text
  {
    if s != "" && s[0] != '\n' {
      LineHasNoCR(s[1..], size, if s[0] == '\r' then line else line + [s[0]]);
    }
  }

  predicate Clean(lines: seq<string>) {
    forall line <- lines :: '\r' !in line && '\0' !in line
  }

  lemma {:induction false} HeadersAreClean(s: string, length: nat)
    ensures HeadersFrom(s, length).Lines? ==> Clean(HeadersFrom(s, length).lines)
    decreases |s|
  {
    hide LineFrom, CStr;
    LineShortens(s, HEAD_LINE_SIZE, "");
    LineHasNoCR(s, HEAD_LINE_SIZE, "");
    var r := LineFrom(s, HEAD_LINE_SIZE, "");
    if r.Line? { HeadersAreClean(r.rest, length + |CStr(r.text)| + 2); }
  }

  // ---- the reader ----

  /** The header loop of receiveResponse: the block it builds is the list of lines, joined. */
  method ReadHeaders(connection: Connection, headers: HTTPBuffer, line: array<char>) returns (failure: Option<Failure>)
    requires Separate(connection, headers) && headers.Contents() == ""
    requires line != connection.buffer && line != headers.data && line.Length == HEAD_LINE_SIZE > 0
    modifies connection, connection.socket, connection.buffer, headers, headers.data, line
    ensures Separate(connection, headers) && (headers.data == old(headers.data) || fresh(headers.data))
    ensures match HeadersFrom(old(connection.Stream()), 0)
      case LinesFail(f) => failure == Some(f)
      case Lines(lines, rest) => failure == None && connection.Stream() == rest && headers.Contents() == Join(lines)
  {
    hide *;
    ghost var goal := HeadersFrom(connection.Stream(), 0);
    ghost var lines: seq<string> := [];
    NoLines(goal);
    while true
      invariant Separate(connection, headers) && (headers.data == old(headers.data) || fresh(headers.data))
      invariant line != headers.data && headers.Contents() == Join(lines)
      invariant goal == Prepend(lines, HeadersFrom(connection.Stream(), |headers.Contents()|))
      decreases |connection.Stream()|
    {
      ghost var s := connection.Stream();
      LineShortens(s, HEAD_LINE_SIZE, "");
      HeadersStep(s, |headers.Contents()|, lines);
      var read := ReadText(connection, headers, line);
      if !read { return Some(MalformedHeaders); }
      var text := CStr(line[..]);
      if text == "" { return None; }
      var fits := AppendLine(connection, headers, text);
      if !fits { return Some(HeadersTooLarge); }
      JoinAppend(lines, text);
      lines := lines + [text];
    }
  }

  /** One line and its line break, if the block stays within the limit. */
  method AppendLine(connection: Connection, headers: HTTPBuffer, text: string) returns (fits: bool)
    requires Separate(connection, headers)
    modifies headers, headers.data
    ensures Separate(connection, headers) && (headers.data == old(headers.data) || fresh(headers.data))
    ensures connection.Stream() == old(connection.Stream())
    ensures fits == (|old(headers.Contents())| + |text| + 2 <= MAX_HEADER_SIZE)
    ensures headers.Contents() == old(headers.Contents()) + if fits then text + "\r\n" else ""
  {
    ghost var before := headers.Contents();
    if headers.length + |text| + 2 > MAX_HEADER_SIZE { return false; }
    headers.Append(text);
    headers.Append("\r\n");
    assert before + text + "\r\n" == before + (text + "\r\n");
    fits := true;
  }

  lemma NoLines(h: HeaderLines)
    ensures h == Prepend([], h) && Join([]) == ""
  {
  }

  lemma HeadersStep(s: string, length: nat, lines: seq<string>)
    ensures Prepend(lines, HeadersFrom(s, length))
         == var r := LineFrom(s, HEAD_LINE_SIZE, "");
            if r.LineFail? then LinesFail(MalformedHeaders)
            else
              var line := CStr(r.text);
              if line == "" then Lines(lines, r.rest)
              else if length + |line| + 2 > MAX_HEADER_SIZE then LinesFail(HeadersTooLarge)
              else Prepend(lines + [line], HeadersFrom(r.rest, length + |line| + 2))
  {
  }

  /** One round of the loop over interim responses; the status replaces that of the round before. */
  method ReadHead(connection: Connection, headers: HTTPBuffer, line: array<char>, before: int)
    returns (failure: Option<Failure>, status: int)
    requires Separate(connection, headers) && headers.Contents() == ""
    requires line != connection.buffer && line != headers.data && line.Length == HEAD_LINE_SIZE > 0
    modifies connection, connection.socket, connection.buffer, headers, headers.data, line
    ensures Separate(connection, headers) && (headers.data == old(headers.data) || fresh(headers.data))
    ensures match OneHead(old(connection.Stream()), before)
      case HeadFail(f, st) => failure == Some(f) && status == st
      case Head(st, lines, rest) =>
        failure == None && status == st && connection.Stream() == rest && headers.Contents() == Join(lines)
  {
    hide LineFrom, CStr, ScanStatus, HeadersFrom, Separate, Connection.Stream, HTTPBuffer.Contents, Join;
    var read := ReadText(connection, headers, line);
    if !read { return Some(NoResponse), before; }
    var scanned := ScanStatus(CStr(line[..]));
    if scanned == None { return Some(MalformedStatusLine), before; }
    status := scanned.value;
    failure := ReadHeaders(connection, headers, line);
  }

  /** The loop over interim responses; every round starts with an empty header block. */
  method ReadHeads(connection: Connection) returns (failure: Option<Failure>, status: int, headers: HTTPBuffer)
    requires connection.Valid()
    modifies connection, connection.socket, connection.buffer
    ensures Separate(connection, headers) && fresh(headers) && fresh(headers.data)
    ensures match HeadFrom(old(connection.Stream()), 0)
      case HeadFail(f, st) => failure == Some(f) && status == st
      case Head(st, lines, rest) =>
        failure == None && status == st && connection.Stream() == rest && headers.Contents() == Join(lines)
  {
    hide *;
    HeadLineSize();
    var line := new char[HEAD_LINE_SIZE](_ => '\0');
    ghost var goal := HeadFrom(connection.Stream(), 0);
    status := 0;
    headers := new HTTPBuffer();
    while true
      invariant connection.Valid() && line != connection.buffer
      invariant goal == HeadFrom(connection.Stream(), status)
      decreases |connection.Stream()|
    {
      ghost var s := connection.Stream();
      OneHeadShortens(s, status);
      HeadStep(s, status);
      headers := new HTTPBuffer();
      AreSeparate(connection, headers);
      failure, status := ReadHead(connection, headers, line, status);
      if failure.Some? || !IsInterim(status) { return; }
    }
  }

  lemma HeadLineSize()
    ensures HEAD_LINE_SIZE > 0
  {
  }

  lemma AreSeparate(connection: Connection, body: HTTPBuffer)
    requires connection.Valid() && body.Valid() && connection.buffer != body.data
    ensures Separate(connection, body)
  {
  }

  lemma HeadStep(s: string, status: int)
    ensures HeadFrom(s, status)
         == var h := OneHead(s, status);
            if h.Head? && IsInterim(h.status) then HeadFrom(h.rest, h.status) else h
  {
  }

  /** The choice of the framing, made on the flat header block. */
  method ReceiveBody(connection: Connection, sink: BodySink, verb: string, status: int, block: string,
                     ghost lines: seq<string>) returns (ok: bool)
    requires Separate(connection, sink.buffer) && !sink.refused
    requires block == Join(lines) && Clean(lines)
    modifies connection, connection.socket, connection.buffer
    modifies sink`handed, sink`refused, sink.buffer, sink.buffer.data
    ensures Separate(connection, sink.buffer)
    ensures if sink.callback then sink.buffer.Contents() == old(sink.buffer.Contents())
            else sink.handed == old(sink.handed)
    ensures var r := FramedBody(verb, status, lines, old(connection.Stream()), connection.socket.broken);
      Outcome(r, ok, sink.refused, old(sink.Data()), sink.Data())
    ensures sink.refused ==> sink.callback
  {
    hide LookupFlat, Lookup, Join, ContainsIgnoringCase, SameIgnoringCase, Strtoull, ChunkedFrom, BodyFrom, Clean,
         Outcome, Separate, Connection.Stream, HTTPBuffer.Contents, Connection.Valid, HTTPBuffer.Valid, BodySink.Data;
    CleanLookup(lines, "Transfer-Encoding");
    CleanLookup(lines, "Content-Length");
    NothingDelivered(sink.Data(), connection.Stream());
    if SameIgnoringCase(verb, "HEAD") || status == 204 || status == 304 { return true; }
    var coding := GetHTTPHeader(block, "Transfer-Encoding", VALUE_SIZE);
    if coding.Some? && ContainsIgnoringCase(coding.value, "chunked") {
      ok := ReadChunkedBody(connection, sink);
      return;
    }
    var text := GetHTTPHeader(block, "Content-Length", VALUE_SIZE);
    if text.Some? {
      var length := Strtoull(text.value, 10);
      if length.None? { return false; }
      ok := ReadBody(connection, sink, length.value);
    } else {
      ok := ReadBody(connection, sink, SIZE_MAX);
    }
  }

  lemma CleanLookup(lines: seq<string>, name: string)
    requires Clean(lines)
    ensures LookupFlat(Join(lines), name, VALUE_SIZE) == Lookup(lines, name, VALUE_SIZE)
  {
    LookupAgrees(lines, name, VALUE_SIZE);
  }

  lemma NothingDelivered(data: string, s: string)
    ensures Outcome(Body(true, "", s), true, false, data, data)
    ensures Outcome(Body(false, "", s), false, false, data, data)
  {
  }

  lemma {:induction false} HeadIsClean(s: string, status: int)
    ensures HeadFrom(s, status).Head? ==> Clean(HeadFrom(s, status).lines)
    decreases |s|
  {
    hide LineFrom, CStr, ScanStatus, HeadersFrom, Clean;
    OneHeadShortens(s, status);
    var r := LineFrom(s, HEAD_LINE_SIZE, "");
    if r.Line? { HeadersAreClean(r.rest, 0); }
    var h := OneHead(s, status);
    if h.Head? && IsInterim(h.status) { HeadIsClean(h.rest, h.status); }
  }

  lemma {:induction false} JoinIsClean(lines: seq<string>)
    requires Clean(lines)
    ensures '\0' !in Join(lines)
  {
    if lines != [] {
      assert lines[0] in lines;
      JoinIsClean(lines[1..]);
    }
  }

  /** The header block as the C string that getHTTPHeader and the caller see. */
  lemma BlockIs(data: string, length: nat, lines: seq<string>)
    requires (data == "" && length == 0) || (length < |data| && data[length] == '\0')
    requires data[..length] == Join(lines) && Clean(lines)
    ensures CStr(data) == Join(lines)
  {
    JoinIsClean(lines);
    if length < |data| {
      assert data == Join(lines) + "\0" + data[length + 1..];
      CStrTerminated(Join(lines), data[length + 1..]);
      CStrWhole(Join(lines));
    }
  }

  /** What becomes of the full response. Without a callback it is the response; with one the body
      goes to the callback instead; when the callback refuses a piece, reading fails and it was
      given only a part of the body. */
  ghost predicate Answers(full: Response, response: Response, callback: bool, handed: string, refused: bool) {
    if !callback then response == full && handed == "" && !refused
    else if !refused then response == full.(body := "") && handed == full.body
    else
      && (full.failure == None || full.failure == Some(BodyUnreadable))
      && response == full.(failure := Some(BodyUnreadable), body := "") && handed <= full.body
  }

  /** receiveResponse: the response is what the stream of bytes says, however the transport cuts
      it into pieces. */
  method ReceiveResponse(connection: Connection, verb: string, callback: bool)
    returns (response: Response, handed: string, refused: bool)
    requires connection.Valid()
    modifies connection, connection.socket, connection.buffer
    ensures Answers(ResponseFrom(old(connection.Stream()), verb, connection.socket.broken), response, callback, handed,
                    refused)
  {
    hide HeadFrom, FramedBody, Join, Connection.Stream, CStr, Clean, Outcome;
    handed, refused := "", false;
    ghost var all, broken := connection.Stream(), connection.socket.broken;
    var failure, status, headers := ReadHeads(connection);
    if failure.Some? { return Response(failure, status, "", ""), "", false; }
    ghost var head := HeadFrom(all, 0);
    HeadIsClean(all, 0);
    BlockIs(headers.data[..], headers.length, head.lines);
    var block := CStr(headers.data[..]);
    var sink := new BodySink(callback);
    var ok := ReceiveBody(connection, sink, verb, status, block, head.lines);
    response := Response(if ok then None else Some(BodyUnreadable), status, block,
                         sink.buffer.data[..sink.buffer.length]);
    handed, refused := sink.handed, sink.refused;
    OutcomeIs(FramedBody(verb, status, head.lines, head.rest, broken), ok, refused, sink.Data());
  }

  lemma OutcomeIs(r: Body, ok: bool, refused: bool, data: string)
    requires Outcome(r, ok, refused, "", data)
    ensures if refused then !ok && data <= r.data else ok == r.ok && data == r.data
  {
    assert "" + r.data == r.data;
  }
}
