/** readBody and readChunkedBody of src/lib/nh-network/HTTPClient.c, and the chunked coding of
    section 7.1 of RFC 9112 that they have to undo. */
module HttpBody {
  import opened CText
  import opened HttpText
  import opened HttpConnection

  const LINE_SIZE: nat := 1024

  /** What a body reader delivered, whether it reported success, and what it left. */
  datatype Body = Body(ok: bool, data: string, rest: string)

  /** readBody in terms of the stream: a size of SIZE_MAX means up to the end. */
  function BodyFrom(s: string, size: nat, broken: bool): Body {
    if size == SIZE_MAX then Body(!broken, s, "")
    else if |s| >= size then Body(true, s[..size], s[size..])
    else Body(false, s, "")
  }

  /** The trailer loop: lines up to an empty one. */
  function AfterTrailers(s: string): Option<string>
    decreases |s|
  {
    LineShortens(s, LINE_SIZE, "");
    var r := LineFrom(s, LINE_SIZE, "");
    if r.LineFail? then None
    else if CStr(r.text) == "" then Some(r.rest)
    else AfterTrailers(r.rest)
  }

  /** readChunkedBody in terms of the stream. */
  function ChunkedFrom(s: string, broken: bool): Body
    decreases |s|
  {
    LineShortens(s, LINE_SIZE, "");
    var head := LineFrom(s, LINE_SIZE, "");
    if head.LineFail? then Body(false, "", "")
    else
      var size := Strtoull(CStr(head.text), 16);
      if size.None? then Body(false, "", "")
      else if size.value == 0 then
        var after := AfterTrailers(head.rest);
        if after.None? then Body(false, "", "") else Body(true, "", after.value)
      else
        var chunk := BodyFrom(head.rest, size.value, broken);
        if !chunk.ok then chunk
        else
          LineShortens(chunk.rest, LINE_SIZE, "");
          var end := LineFrom(chunk.rest, LINE_SIZE, "");
          if end.LineFail? then Body(false, chunk.data, "")
          else
            var more := ChunkedFrom(end.rest, broken);
            Body(more.ok, chunk.data + more.data, more.rest)
  }

  // ---- the coding ----

  /** A chunk: its size in hexadecimal digits, an optional extension, its data, and what a sender may
      have put between the data and the line break, which the reader drops. */
  datatype Chunk = Chunk(size: string, extension: string, data: string, slack: string)

  ghost predicate LineText(s: string) {
    '\n' !in s && '\r' !in s && |s| < LINE_SIZE
  }

  /** chunk-size [ chunk-ext ] with the given value. */
  ghost predicate ChunkHead(size: string, extension: string, value: nat) {
    && size != "" && AllDigits(size, 16) && Value(size, 16) == value
    && (extension != "" ==> extension[0] in ";\t ") && '\0' !in extension
    && LineText(size + extension)
  }

  ghost predicate WellFormed(c: Chunk) {
    0 < |c.data| < SIZE_MAX && ChunkHead(c.size, c.extension, |c.data|) && LineText(c.slack)
  }

  ghost predicate Trailer(line: string) {
    LineText(line) && line != "" && '\0' !in line
  }

  function EncodeChunks(chunks: seq<Chunk>): string {
    if chunks == [] then ""
    else
      var c := chunks[0];
      c.size + c.extension + "\r\n" + c.data + c.slack + "\r\n" + EncodeChunks(chunks[1..])
  }

  /** last-chunk trailer-section CRLF. */
  function EncodeEnd(last: Chunk, trailers: seq<string>): string {
    last.size + last.extension + "\r\n" + Join(trailers) + "\r\n"
  }

  function Data(chunks: seq<Chunk>): string {
    if chunks == [] then "" else chunks[0].data + Data(chunks[1..])
  }

  lemma HeadValue(size: string, extension: string, value: nat)
    requires ChunkHead(size, extension, value) && value <= SIZE_MAX
    ensures Strtoull(CStr(size + extension), 16) == Some(value)
  {
    HexHasNoNul(size);
    CStrWhole(size + extension);
    StrtoullPlain(size, extension, 16);
  }

  lemma {:induction false} HexHasNoNul(s: string)
    requires AllDigits(s, 16)
    ensures '\0' !in s
  {
    if '\0' in s { assert false; }
  }

  lemma {:induction false} TrailersRead(trailers: seq<string>, tail: string)
    requires forall line <- trailers :: Trailer(line)
    ensures AfterTrailers(Join(trailers) + "\r\n" + tail) == Some(tail)
  {
    if trailers == [] {
      assert "" + "\r\n" + tail == "\r\n" + tail;
      LineRead("", tail, LINE_SIZE);
      assert "" + "\r\n" + tail == "\r\n" + tail;
    } else {
      var line, rest := trailers[0], Join(trailers[1..]) + "\r\n" + tail;
      assert line in trailers;
      assert Join(trailers) + "\r\n" + tail == line + "\r\n" + rest;
      LineRead(line, rest, LINE_SIZE);
      CStrWhole(line);
      TrailersRead(trailers[1..], tail);
    }
  }

  /** Reading a well-formed chunked body gives exactly the data of the chunks, and stops right
      behind the trailer section. */
  lemma {:induction false} ChunkedDecodes(chunks: seq<Chunk>, last: Chunk, trailers: seq<string>, tail: string,
                                          broken: bool)
    requires forall c <- chunks :: WellFormed(c)
    requires ChunkHead(last.size, last.extension, 0) && forall line <- trailers :: Trailer(line)
    ensures ChunkedFrom(EncodeChunks(chunks) + EncodeEnd(last, trailers) + tail, broken)
         == Body(true, Data(chunks), tail)
  {
    hide LineFrom, Strtoull, AfterTrailers, CStr;
    var all := EncodeChunks(chunks) + EncodeEnd(last, trailers) + tail;
    if chunks == [] {
      var head, rest := last.size + last.extension, Join(trailers) + "\r\n" + tail;
      assert all == head + "\r\n" + rest;
      LineRead(head, rest, LINE_SIZE);
      HeadValue(last.size, last.extension, 0);
      TrailersRead(trailers, tail);
    } else {
      var c, more := chunks[0], EncodeChunks(chunks[1..]) + EncodeEnd(last, trailers) + tail;
      assert c in chunks;
      var head := c.size + c.extension;
      ChunkSplit(c, EncodeChunks(chunks[1..]), EncodeEnd(last, trailers), tail);
      LineRead(head, c.data + (c.slack + "\r\n" + more), LINE_SIZE);
      HeadValue(c.size, c.extension, |c.data|);
      LineRead(c.slack, more, LINE_SIZE);
      ChunkedDecodes(chunks[1..], last, trailers, tail, broken);
    }
  }

  lemma ChunkSplit(c: Chunk, others: string, end: string, tail: string)
    ensures c.size + c.extension + "\r\n" + c.data + c.slack + "\r\n" + others + end + tail
         == (c.size + c.extension) + "\r\n" + (c.data + (c.slack + "\r\n" + (others + end + tail)))
  {
  }

  // ---- truncated streams ----

  lemma {:induction false} TrailersStay(s: string, more: string)
    ensures AfterTrailers(s).Some? ==> AfterTrailers(s + more) == Some(AfterTrailers(s).value + more)
    decreases |s|
  {
    LineStays(s, more, LINE_SIZE, "");
    LineShortens(s, LINE_SIZE, "");
    var r := LineFrom(s, LINE_SIZE, "");
    if r.Line? && CStr(r.text) != "" {
      TrailersStay(r.rest, more);
    }
  }

  /** The longer the stream, the more is delivered, and never anything else; a body that was
      complete stays as it is. */
  lemma {:induction false} ChunkedGrows(s: string, more: string, broken: bool, broken': bool)
    ensures ChunkedFrom(s, broken).data <= ChunkedFrom(s + more, broken').data
    ensures ChunkedFrom(s, broken).ok ==>
      var r := ChunkedFrom(s, broken);
      ChunkedFrom(s + more, broken') == Body(true, r.data, r.rest + more)
    decreases |s|
  {
    hide LineFrom, Strtoull, AfterTrailers, CStr;
    LineStays(s, more, LINE_SIZE, "");
    LineShortens(s, LINE_SIZE, "");
    var head := LineFrom(s, LINE_SIZE, "");
    if head.Line? {
      var size := Strtoull(CStr(head.text), 16);
      if size == Some(0) {
        TrailersStay(head.rest, more);
      } else if size.Some? {
        var chunk := BodyFrom(head.rest, size.value, broken);
        var chunk' := BodyFrom(head.rest + more, size.value, broken');
        if size.value == SIZE_MAX {
          EmptyLine();
        } else if chunk.ok {
          assert chunk' == Body(true, chunk.data, chunk.rest + more);
          LineStays(chunk.rest, more, LINE_SIZE, "");
          LineShortens(chunk.rest, LINE_SIZE, "");
          var end := LineFrom(chunk.rest, LINE_SIZE, "");
          if end.Line? { ChunkedGrows(end.rest, more, broken, broken'); }
        }
      }
    }
  }

  lemma EmptyLine()
    ensures LineFrom("", LINE_SIZE, "") == LineFail
  {
  }

  /** When the stream ends early, by an error or by a close, what was delivered is a prefix of the
      body, and success is reported only when nothing is missing. */
  lemma ChunkedTruncated(chunks: seq<Chunk>, last: Chunk, trailers: seq<string>, got: string, missing: string,
                         broken: bool)
    requires forall c <- chunks :: WellFormed(c)
    requires ChunkHead(last.size, last.extension, 0) && forall line <- trailers :: Trailer(line)
    requires EncodeChunks(chunks) + EncodeEnd(last, trailers) == got + missing
    ensures ChunkedFrom(got, broken).data <= Data(chunks)
    ensures ChunkedFrom(got, broken).ok <==> missing == ""
  {
    var all := EncodeChunks(chunks) + EncodeEnd(last, trailers);
    assert all + "" == all;
    ChunkedDecodes(chunks, last, trailers, "", broken);
    ChunkedGrows(got, missing, broken, broken);
    if missing == "" { assert got == all; }
  }

  // ---- the readers ----

  ghost predicate Separate(connection: Connection, body: HTTPBuffer)
    reads connection, body, body.data
    ensures Separate(connection, body) ==> connection.Valid() && body.Valid() && connection.buffer != body.data
  {
    connection.Valid() && body.Valid() && connection.buffer != body.data
  }

  /** A body whose first piece was delivered already. */
  function After(piece: string, body: Body): Body {
    Body(body.ok, piece + body.data, body.rest)
  }

  /** Where a body goes: to the write_f callback of the request, if there is one, and else into the
      buffer. The callback may refuse what it is given. */
  class BodySink {
    const buffer: HTTPBuffer
    const callback: bool
    /** What the callback was given, and whether it refused the last of it. */
    var handed: string
    var refused: bool

    constructor (callback: bool)
      ensures fresh(buffer) && fresh(buffer.data) && buffer.Valid() && buffer.Contents() == ""
      ensures this.callback == callback && Data() == "" && handed == "" && !refused
    {
      buffer := new HTTPBuffer();
      this.callback := callback;
      handed, refused := "", false;
    }

    ghost function Data(): string
      reads this`handed, buffer, buffer.data
      requires buffer.Valid()
    {
      if callback then handed else buffer.Contents()
    }

    /** deliverBody; a callback returns how much it took. */
    method Deliver(piece: string) returns (ok: bool)
      requires buffer.Valid() && !refused
      modifies this`handed, this`refused, buffer, buffer.data
      ensures buffer.Valid() && (buffer.data == old(buffer.data) || fresh(buffer.data))
      ensures Data() == old(Data()) + piece && ok == !refused
      ensures if callback then buffer.Contents() == old(buffer.Contents()) else handed == old(handed)
      ensures refused ==> callback && piece != ""
    {
      ok := true;
      assert piece == "" ==> Data() + piece == Data();
      if |piece| == 0 { return; }
      if callback {
        handed := handed + piece;
        var took: nat := *;
        ok := took == |piece|;
        refused := !ok;
      } else {
        buffer.Append(piece);
      }
    }
  }

  /** What a reader of the body r did to a sink: everything was delivered, with its success; or a
      piece was refused, then that is where it ended, and it failed. */
  predicate Outcome(r: Body, ok: bool, refused: bool, before: string, after: string) {
    if refused then !ok && before < after <= before + r.data else ok == r.ok && after == before + r.data
  }

  /** The delivery of bytes in the buffer, and the step of the position behind it. */
  method DeliverBody(connection: Connection, sink: BodySink, take: nat) returns (ok: bool)
    requires Separate(connection, sink.buffer) && !sink.refused && connection.position + take <= connection.length
    modifies connection`position, sink`handed, sink`refused, sink.buffer, sink.buffer.data
    ensures Separate(connection, sink.buffer)
    ensures sink.buffer.data == old(sink.buffer.data) || fresh(sink.buffer.data)
    ensures if sink.callback then sink.buffer.Contents() == old(sink.buffer.Contents())
            else sink.handed == old(sink.handed)
    ensures take <= |old(connection.Stream())|
    ensures sink.Data() == old(sink.Data()) + old(connection.Stream())[..take]
    ensures ok == !sink.refused && (ok ==> connection.Stream() == old(connection.Stream())[take..])
    ensures sink.refused ==> sink.callback && take > 0
  {
    ghost var s := connection.Stream();
    var piece := connection.buffer[connection.position..connection.position + take];
    assert piece == s[..take];
    ok := sink.Deliver(piece);
    if !ok { return; }
    connection.position := connection.position + take;
    assert connection.Stream() == s[take..];
  }

  /** readBody. */
  method ReadBody(connection: Connection, sink: BodySink, size: nat) returns (ok: bool)
    requires Separate(connection, sink.buffer) && !sink.refused && size <= SIZE_MAX
    modifies connection, connection.socket, connection.buffer
    modifies sink`handed, sink`refused, sink.buffer, sink.buffer.data
    ensures Separate(connection, sink.buffer)
    ensures sink.buffer.data == old(sink.buffer.data) || fresh(sink.buffer.data)
    ensures if sink.callback then sink.buffer.Contents() == old(sink.buffer.Contents())
            else sink.handed == old(sink.handed)
    ensures var r := BodyFrom(old(connection.Stream()), size, connection.socket.broken);
      && Outcome(r, ok, sink.refused, old(sink.Data()), sink.Data())
      && (ok ==> connection.Stream() == r.rest)
    ensures sink.refused ==> sink.callback
  {
    hide *;
    ghost var broken := connection.socket.broken;
    ghost var goal := BodyFrom(connection.Stream(), size, broken);
    var untilEOF := size == SIZE_MAX;
    var left: nat := size;
    ghost var start, done := sink.Data(), "";
    NothingDone(goal);
    while untilEOF || left > 0
      invariant Separate(connection, sink.buffer) && !sink.refused
      invariant sink.buffer.data == old(sink.buffer.data) || fresh(sink.buffer.data)
      invariant if sink.callback then sink.buffer.Contents() == old(sink.buffer.Contents())
                else sink.handed == old(sink.handed)
      invariant sink.Data() == start + done
      invariant goal == After(done, BodyFrom(connection.Stream(), left, broken))
      invariant if untilEOF then left == SIZE_MAX else left < SIZE_MAX
      decreases |connection.Stream()|
    {
      ghost var s := connection.Stream();
      var filled, eof := Fill(connection, sink.buffer);
      if !filled || eof {
        AfterEnds(done, left, broken);
        AllDelivered(goal, start, done);
        return filled && untilEOF;
      }
      var available := connection.length - connection.position;
      var take := if untilEOF || available < left then available else left;
      BodyStep(s, take, left, done, broken);
      var taken := DeliverBody(connection, sink, take);
      Grouped(start, done, s[..take]);
      done := done + s[..take];
      if !taken {
        Refusal(goal, start, done, BodyFrom(s[take..], if untilEOF then left else left - take, broken));
        return false;
      }
      if !untilEOF { left := left - take; }
    }
    AfterNothing(done, connection.Stream(), broken);
    AllDelivered(goal, start, done);
    ok := true;
  }

  /** fillBuffer, which leaves the body buffer alone. */
  method Fill(connection: Connection, body: HTTPBuffer) returns (ok: bool, eof: bool)
    requires Separate(connection, body)
    modifies connection, connection.socket, connection.buffer
    ensures Separate(connection, body) && body.Contents() == old(body.Contents())
    ensures connection.Stream() == old(connection.Stream())
    ensures ok == !(connection.Stream() == "" && connection.socket.broken)
    ensures eof == (connection.Stream() == "" && !connection.socket.broken)
    ensures ok && !eof ==> connection.position < connection.length
    ensures connection.position <= connection.length
    ensures connection.length - connection.position <= |connection.Stream()|
  {
    ok, eof := connection.FillBuffer();
  }

  lemma BodyStep(s: string, take: nat, size: nat, done: string, broken: bool)
    requires take <= |s| && (size == SIZE_MAX || take <= size < SIZE_MAX)
    ensures After(done, BodyFrom(s, size, broken))
         == After(done + s[..take], BodyFrom(s[take..], if size == SIZE_MAX then size else size - take, broken))
  {
    var rest := s[take..];
    assert s == s[..take] + rest;
    if size == SIZE_MAX || |s| < size {
      assert done + s == done + s[..take] + rest;
      assert |rest| == |s| - take;
      assert size != SIZE_MAX ==> BodyFrom(rest, size - take, broken) == Body(false, rest, "");
    } else {
      assert done + s[..size] == done + s[..take] + rest[..size - take];
      assert s[size..] == rest[size - take..];
      assert BodyFrom(rest, size - take, broken) == Body(true, rest[..size - take], rest[size - take..]);
    }
  }

  lemma Grouped(a: string, b: string, c: string)
    ensures a + b + c == a + (b + c) && (c != "" ==> b + c != "")
  {
  }

  lemma AllDelivered(r: Body, start: string, done: string)
    requires r.data == done
    ensures Outcome(r, r.ok, false, start, start + done)
  {
  }

  /** The last piece of what was delivered was refused. */
  lemma Refusal(r: Body, start: string, done: string, more: Body)
    requires r == After(done, more) && done != ""
    ensures Outcome(r, false, true, start, start + done)
  {
    assert start + r.data == start + done + more.data;
  }

  lemma NothingDone(body: Body)
    ensures body == After("", body)
  {
  }

  lemma AfterEnds(done: string, size: nat, broken: bool)
    requires size == SIZE_MAX || size > 0
    ensures After(done, BodyFrom("", size, broken)) == Body(size == SIZE_MAX && !broken, done, "")
  {
  }

  lemma AfterNothing(done: string, s: string, broken: bool)
    ensures After(done, BodyFrom(s, 0, broken)) == Body(true, done, s)
  {
  }

  /** readChunkedBody. */
  method ReadChunkedBody(connection: Connection, sink: BodySink) returns (ok: bool)
    requires Separate(connection, sink.buffer) && !sink.refused
    modifies connection, connection.socket, connection.buffer
    modifies sink`handed, sink`refused, sink.buffer, sink.buffer.data
    ensures Separate(connection, sink.buffer)
    ensures sink.buffer.data == old(sink.buffer.data) || fresh(sink.buffer.data)
    ensures if sink.callback then sink.buffer.Contents() == old(sink.buffer.Contents())
            else sink.handed == old(sink.handed)
    ensures var r := ChunkedFrom(old(connection.Stream()), connection.socket.broken);
      && Outcome(r, ok, sink.refused, old(sink.Data()), sink.Data())
      && (ok ==> connection.Stream() == r.rest)
    ensures sink.refused ==> sink.callback
  {
    hide *;
    SomeLine();
    var line := new char[LINE_SIZE](_ => '\0');
    ghost var broken := connection.socket.broken;
    ghost var goal := ChunkedFrom(connection.Stream(), broken);
    ghost var start, done := sink.Data(), "";
    NothingDone(goal);
    while true
      invariant Separate(connection, sink.buffer) && !sink.refused
      invariant sink.buffer.data == old(sink.buffer.data) || fresh(sink.buffer.data)
      invariant if sink.callback then sink.buffer.Contents() == old(sink.buffer.Contents())
                else sink.handed == old(sink.handed)
      invariant line != connection.buffer && line != sink.buffer.data
      invariant sink.Data() == start + done
      invariant goal == After(done, ChunkedFrom(connection.Stream(), broken))
      decreases |connection.Stream()|
    {
      ghost var s := connection.Stream();
      ChunkStep(s, broken, done);
      LineShortens(s, LINE_SIZE, "");
      var read := ReadText(connection, sink.buffer, line);
      if !read { AllDelivered(goal, start, done); return false; }
      var size := Strtoull(CStr(line[..]), 16);
      if size.None? { AllDelivered(goal, start, done); return false; }
      if size.value == 0 {
        ok := SkipTrailers(connection, sink.buffer, line);
        AllDelivered(goal, start, done);
        return ok;
      }
      ghost var chunk := BodyFrom(connection.Stream(), size.value, broken);
      BodyShortens(connection.Stream(), size.value, broken);
      ghost var before := sink.Data();
      var delivered := ReadBody(connection, sink, size.value);
      ChunkOutcome(chunk, delivered, sink.refused, start, done, sink.Data(), goal);
      if !delivered { return false; }
      done := done + chunk.data;
      LineShortens(connection.Stream(), LINE_SIZE, "");
      read := ReadText(connection, sink.buffer, line);
      if !read { AllDelivered(goal, start, done); return false; }
    }
  }

  /** What reading one chunk means for the whole body, when it is the last thing that happens. */
  lemma ChunkOutcome(chunk: Body, ok: bool, refused: bool, start: string, done: string, now: string, goal: Body)
    requires Outcome(chunk, ok, refused, start + done, now)
    requires done + chunk.data <= goal.data && (!chunk.ok ==> !goal.ok && goal.data == done + chunk.data)
    ensures !ok ==> Outcome(goal, ok, refused, start, now)
    ensures ok ==> !refused && chunk.ok && now == start + (done + chunk.data)
  {
    var whole := start + done + chunk.data;
    assert whole == start + (done + chunk.data);
    assert start + goal.data == whole + goal.data[|done + chunk.data|..];
    assert start <= start + done;
  }

  lemma SomeLine()
    ensures LINE_SIZE > 0
  {
  }

  lemma ChunkStep(s: string, broken: bool, done: string)
    ensures After(done, ChunkedFrom(s, broken))
         == var head := LineFrom(s, LINE_SIZE, "");
            if head.LineFail? then Body(false, done, "")
            else
              var size := Strtoull(CStr(head.text), 16);
              if size.None? then Body(false, done, "")
              else if size.value == 0 then
                var after := AfterTrailers(head.rest);
                if after.None? then Body(false, done, "") else Body(true, done, after.value)
              else
                var chunk := BodyFrom(head.rest, size.value, broken);
                if !chunk.ok then Body(false, done + chunk.data, chunk.rest)
                else
                  var end := LineFrom(chunk.rest, LINE_SIZE, "");
                  if end.LineFail? then Body(false, done + chunk.data, "")
                  else After(done + chunk.data, ChunkedFrom(end.rest, broken))
    ensures var head := LineFrom(s, LINE_SIZE, "");
      head.Line? ==>
        var size := Strtoull(CStr(head.text), 16);
        size.Some? && size.value != 0 ==>
          done + BodyFrom(head.rest, size.value, broken).data <= After(done, ChunkedFrom(s, broken)).data
  {
    hide LineFrom, Strtoull, AfterTrailers, CStr, BodyFrom;
    assert done + "" == done;
    var head := LineFrom(s, LINE_SIZE, "");
    if head.Line? {
      var size := Strtoull(CStr(head.text), 16);
      if size.Some? && size.value != 0 {
        var chunk := BodyFrom(head.rest, size.value, broken);
        var end := LineFrom(chunk.rest, LINE_SIZE, "");
        if chunk.ok && end.Line? {
          BodyShortens(head.rest, size.value, broken);
          LineShortens(s, LINE_SIZE, "");
          LineShortens(chunk.rest, LINE_SIZE, "");
          AfterTwo(done, chunk.data, ChunkedFrom(end.rest, broken));
        }
      }
    }
  }

  lemma AfterTwo(a: string, b: string, body: Body)
    ensures After(a, After(b, body)) == After(a + b, body)
  {
    assert a + (b + body.data) == a + b + body.data;
  }

  /** readLine, with the line as the C string found in the buffer. */
  method ReadText(connection: Connection, body: HTTPBuffer, line: array<char>) returns (ok: bool)
    requires Separate(connection, body) && line != connection.buffer && line != body.data && line.Length > 0
    modifies connection, connection.socket, connection.buffer, line
    ensures Separate(connection, body) && body.Contents() == old(body.Contents())
    ensures var r := LineFrom(old(connection.Stream()), line.Length, "");
      && ok == r.Line?
      && (ok ==> connection.Stream() == r.rest && CStr(line[..]) == CStr(r.text))
  {
    hide LineFrom, CStr;
    ghost var r := LineFrom(connection.Stream(), line.Length, "");
    ok := connection.ReadLine(line);
    if ok { LineInBuffer(line[..], r.text); }
  }

  /** The do-while loop over the trailer lines. */
  method SkipTrailers(connection: Connection, body: HTTPBuffer, line: array<char>) returns (ok: bool)
    requires Separate(connection, body) && line != connection.buffer && line != body.data
    requires line.Length == LINE_SIZE > 0
    modifies connection, connection.socket, connection.buffer, line
    ensures Separate(connection, body) && body.Contents() == old(body.Contents())
    ensures var after := AfterTrailers(old(connection.Stream()));
      ok == after.Some? && (ok ==> connection.Stream() == after.value)
  {
    hide *;
    ghost var goal := AfterTrailers(connection.Stream());
    while true
      invariant Separate(connection, body) && body.Contents() == old(body.Contents())
      invariant goal == AfterTrailers(connection.Stream())
      decreases |connection.Stream()|
    {
      ghost var s := connection.Stream();
      TrailerStep(s);
      LineShortens(s, LINE_SIZE, "");
      var read := ReadText(connection, body, line);
      if !read { return false; }
      FirstNul(line[..]);
      if line[0] == '\0' { return true; }
    }
  }

  lemma TrailerStep(s: string)
    ensures AfterTrailers(s)
         == var r := LineFrom(s, LINE_SIZE, "");
            if r.LineFail? then None
            else if CStr(r.text) == "" then Some(r.rest)
            else AfterTrailers(r.rest)
  {
  }

  lemma FirstNul(s: string)
    requires s != ""
    ensures CStr(s) == "" <==> s[0] == '\0'
  {
  }

  /** A line buffer with a NUL behind the line is that line, as a C string. */
  lemma LineInBuffer(buffer: string, text: string)
    requires |text| < |buffer| && buffer[..|text|] == text && buffer[|text|] == '\0'
    ensures CStr(buffer) == CStr(text)
  {
    assert buffer == text + "\0" + buffer[|text| + 1..];
    CStrTerminated(text, buffer[|text| + 1..]);
  }

  lemma BodyShortens(s: string, size: nat, broken: bool)
    ensures |BodyFrom(s, size, broken).rest| <= |s|
  {
  }
}
