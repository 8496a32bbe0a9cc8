/** Whole responses as a server writes them, character by character, and what receiveResponse of
    src/lib/nh-network/HTTPClient.c reports of them: the statements here name no function of the
    reader but ResponseFrom. */
module HttpMessages {
  import opened CText
  import opened CNumbers
  import opened HttpText
  import opened HttpConnection
  import opened HttpBody
  import opened HttpResponse

  // ---- names and values ----

  /** The same characters, but for the case of letters. */
  predicate SameLetters(a: string, b: string) {
    && |a| == |b|
    && forall i :: 0 <= i < |a| ==>
      || a[i] == b[i]
      || ('A' <= a[i] <= 'Z' && b[i] as int == a[i] as int + 32)
      || ('a' <= a[i] <= 'z' && b[i] as int == a[i] as int - 32)
  }

  lemma SameLettersIs(a: string, b: string)
    ensures SameIgnoringCase(a, b) <==> SameLetters(a, b)
  {
  }

  ghost predicate MentionsAt(s: string, part: string, i: nat) {
    i + |part| <= |s| && SameLetters(s[i..i + |part|], part)
  }

  /** part stands somewhere in s, in letters of any case. */
  ghost predicate Mentions(s: string, part: string) {
    exists i: nat :: MentionsAt(s, part, i)
  }

  lemma MentionsTail(s: string, part: string, i: nat)
    requires s != ""
    ensures MentionsAt(s[1..], part, i) <==> MentionsAt(s, part, i + 1)
  {
    if i + 1 + |part| <= |s| {
      assert s[1..][i..i + |part|] == s[i + 1..i + 1 + |part|];
    }
  }

  lemma {:induction false} MentionsIs(s: string, part: string)
    ensures ContainsIgnoringCase(s, part) <==> Mentions(s, part)
  {
    hide SameLetters, SameIgnoringCase, MentionsAt;
    MentionsFirst(s, part);
    if s != "" {
      MentionsIs(s[1..], part);
      if Mentions(s[1..], part) {
        var i: nat :| MentionsAt(s[1..], part, i);
        MentionsTail(s, part, i);
      }
      if Mentions(s, part) {
        var i: nat :| MentionsAt(s, part, i);
        if i > 0 { MentionsTail(s, part, i - 1); }
      }
    }
    MentionsShort(s, part);
  }

  lemma MentionsFirst(s: string, part: string)
    ensures MentionsAt(s, part, 0) <==> |s| >= |part| && SameIgnoringCase(s[..|part|], part)
    ensures s == "" && |part| > 0 ==> !Mentions(s, part)
    ensures s == "" ==> forall i: nat :: i > 0 ==> !MentionsAt(s, part, i)
  {
    if |s| >= |part| {
      assert s[0..0 + |part|] == s[..|part|];
      SameLettersIs(s[..|part|], part);
    }
  }

  lemma MentionsShort(s: string, part: string)
    ensures |s| < |part| ==> !Mentions(s, part)
  {
  }

  predicate BlankText(s: string) {
    forall i :: 0 <= i < |s| ==> s[i] == ' ' || s[i] == '\t'
  }

  predicate OneLine(s: string) {
    '\r' !in s && '\n' !in s && '\0' !in s
  }

  /** A header line: a name, a colon, and a value with blanks around it. */
  datatype Field = Field(name: string, before: string, value: string, after: string) {
    predicate Valid() {
      && ':' !in name && BlankText(before) && BlankText(after)
      && (value != "" ==> value[0] !in " \t" && value[|value| - 1] !in " \t")
    }

    function Text(): string {
      name + ":" + before + value + after
    }
  }

  lemma ColonAlone(c: char)
    ensures Lower(c) == ':' <==> c == ':'
  {
  }

  /** A name is found in letters of any case, and no other name is. */
  lemma FieldMatches(f: Field, name: string)
    requires f.Valid() && ':' !in name
    ensures NameMatches(f.Text(), name) <==> SameLetters(f.name, name)
  {
    hide SameLetters, BlankText;
    var line, rest := f.Text(), f.before + f.value + f.after;
    assert line == f.name + (":" + rest);
    SameLettersIs(f.name, name);
    SameLength(f.name, name);
    if |f.name| == |name| {
      assert line[..|name|] == f.name;
    } else if |f.name| < |name| <= |line| {
      assert line[..|name|][|f.name|] == ':';
      ColonAlone(name[|f.name|]);
      assert name[|f.name|] in name;
    } else if |name| < |f.name| {
      assert line[|name|] == f.name[|name|] && f.name[|name|] in f.name;
    }
  }

  lemma SameLength(a: string, b: string)
    ensures SameLetters(a, b) ==> |a| == |b|
  {
  }

  lemma {:induction false} TrimLeftIs(before: string, rest: string)
    requires BlankText(before)
    ensures TrimLeft(before + rest) == TrimLeft(rest)
    ensures rest != "" && rest[0] !in " \t" ==> TrimLeft(before + rest) == rest
    ensures rest == "" ==> TrimLeft(before + rest) == ""
  {
    if before == "" {
      assert before + rest == rest;
    } else {
      assert (before + rest)[1..] == before[1..] + rest;
      TrimLeftIs(before[1..], rest);
    }
  }

  lemma {:induction false} TrimRightIs(front: string, after: string)
    requires BlankText(after) && (front != "" ==> front[|front| - 1] !in " \t")
    ensures TrimRight(front + after) == front
  {
    if after == "" {
      assert front + after == front;
    } else {
      var q := |after| - 1;
      assert (front + after)[..|front| + q] == front + after[..q];
      TrimRightIs(front, after[..q]);
    }
  }

  /** The value comes without the blanks around it, and cut to what fits the buffer. */
  lemma FieldValueIs(f: Field, name: string, size: nat)
    requires f.Valid() && size > 0 && NameMatches(f.Text(), name) && |f.name| == |name|
    ensures FieldValue(f.Text(), name, size) == if |f.value| >= size then f.value[..size - 1] else f.value
  {
    hide BlankText, NameMatches, TrimLeft, TrimRight;
    var rest := f.value + f.after;
    assert f.Text()[|name| + 1..] == f.before + rest;
    TrimLeftIs(f.before, rest);
    TrimRightIs(f.value, f.after);
    if f.value == "" {
      assert rest == f.after && f.after + "" == f.after;
      TrimLeftIs(f.after, "");
      TrimRightIs("", "");
      assert "" + "" == "";
    } else {
      assert rest[0] == f.value[0];
    }
  }

  function FieldLines(fields: seq<Field>): seq<string> {
    if fields == [] then [] else [fields[0].Text()] + FieldLines(fields[1..])
  }

  /** The value of the first field with that name, in letters of any case. */
  function ValueOf(fields: seq<Field>, name: string): Option<string> {
    if fields == [] then None
    else if SameLetters(fields[0].name, name) then Some(fields[0].value)
    else ValueOf(fields[1..], name)
  }

  function Cut(s: string): string {
    if |s| >= 256 then s[..255] else s
  }

  lemma {:induction false} LookupIs(fields: seq<Field>, name: string)
    requires ':' !in name && forall f <- fields :: f.Valid()
    ensures Lookup(FieldLines(fields), name, VALUE_SIZE)
         == match ValueOf(fields, name) case None => None case Some(v) => Some(Cut(v))
  {
    hide SameLetters, NameMatches, FieldValue;
    if fields != [] {
      var f := fields[0];
      assert f in fields;
      FieldMatches(f, name);
      SameLength(f.name, name);
      if NameMatches(f.Text(), name) { FieldValueIs(f, name, VALUE_SIZE); }
      assert FieldLines(fields)[1..] == FieldLines(fields[1..]);
      LookupIs(fields[1..], name);
    }
  }

  // ---- messages ----

  /** A status line of section 4 of RFC 9112 and the header lines below it. */
  datatype Message = Message(major: string, minor: string, digits: string, reason: string, code: nat,
                             fields: seq<Field>)
  {
    predicate Proper() {
      && IsNumber(major) && IsNumber(minor) && Denotes(digits, code, 10) && code < 0x8000_0000
      && (reason == "" || reason[0] == ' ') && OneLine(reason) && |StatusText()| < 8192
      && (forall f <- fields :: f.Valid() && OneLine(f.Text()) && |f.Text()| < 8192)
    }

    predicate Valid() {
      Proper() && |Block()| <= 65536
    }

    function StatusText(): string {
      "HTTP/" + major + "." + minor + " " + digits + reason
    }

    function Block(): string {
      Join(FieldLines(fields))
    }

    function Text(): string {
      StatusText() + "\r\n" + Block() + "\r\n"
    }

    function AsHead(): HeadText {
      HeadText(StatusText(), code, FieldLines(fields))
    }
  }

  predicate IsNumber(s: string) {
    s != "" && forall i :: 0 <= i < |s| ==> '0' <= s[i] <= '9'
  }

  function Texts(messages: seq<Message>): string {
    if messages == [] then "" else messages[0].Text() + Texts(messages[1..])
  }

  function AsHeads(messages: seq<Message>): seq<HeadText> {
    if messages == [] then [] else [messages[0].AsHead()] + AsHeads(messages[1..])
  }

  lemma {:induction false} LinesAreFields(fields: seq<Field>)
    requires forall f <- fields :: OneLine(f.Text()) && |f.Text()| < 8192
    ensures forall line <- FieldLines(fields) :: HeadLine(line) && line != ""
  {
    if fields != [] {
      assert fields[0] in fields;
      assert HeadLine(fields[0].Text()) && fields[0].Text() != "";
      LinesAreFields(fields[1..]);
    }
  }

  lemma NumberIs(s: string)
    requires IsNumber(s)
    ensures s != "" && AllDigits(s, 10) && OneLine(s)
  {
  }

  lemma {:induction false} DigitsOneLine(s: string, base: nat)
    requires AllDigits(s, base) && base <= 16
    ensures OneLine(s)
  {
    if !OneLine(s) {
      var c :| c in s && (c == '\r' || c == '\n' || c == '\0');
      assert false;
    }
  }

  /** The status of a message is the number its status line writes. */
  lemma CodeReported(m: Message)
    requires m.Proper()
    ensures ScanStatus(m.StatusText()) == Some(m.code) && OneLine(m.StatusText())
  {
    hide IsNumber, Denotes, OneLine, ScanStatus, AllDigits, Value;
    NumberIs(m.major);
    NumberIs(m.minor);
    DenotesValue(m.digits, m.code, 10);
    DigitsOneLine(m.digits, 10);
    StatusScanned(m.major, m.minor, m.digits, m.reason);
    OneLineParts(m);
  }

  lemma OneLineParts(m: Message)
    requires OneLine(m.major) && OneLine(m.minor) && OneLine(m.digits) && OneLine(m.reason)
    ensures OneLine(m.StatusText())
  {
  }

  lemma HeadOf(m: Message)
    requires m.Valid()
    ensures WellFormedHead(m.AsHead()) && EncodeHead(m.AsHead()) == m.Text()
    ensures Interim(m.AsHead()) <==> 100 <= m.code <= 199
  {
    hide IsNumber, Denotes, ScanStatus, Join, FieldLines;
    CodeReported(m);
    LinesAreFields(m.fields);
  }

  lemma {:induction false} HeadsOf(messages: seq<Message>)
    requires forall m <- messages :: m.Valid() && 100 <= m.code <= 199
    ensures EncodeHeads(AsHeads(messages)) == Texts(messages)
    ensures forall h <- AsHeads(messages) :: Interim(h)
  {
    hide EncodeHead, Interim;
    if messages != [] {
      var m := messages[0];
      assert m in messages;
      HeadOf(m);
      assert AsHeads(messages)[1..] == AsHeads(messages[1..]);
      HeadsOf(messages[1..]);
    }
  }

  // ---- what is reported of them ----

  predicate HasNoBody(verb: string, code: nat) {
    SameLetters(verb, "HEAD") || code == 204 || code == 304
  }

  ghost predicate SaysChunked(fields: seq<Field>) {
    var coding := ValueOf(fields, "Transfer-Encoding");
    coding.Some? && Mentions(Cut(coding.value), "chunked")
  }

  lemma FramingMeans(m: Message, verb: string)
    requires m.Valid()
    ensures NoBody(verb, m.code) <==> HasNoBody(verb, m.code)
    ensures Chunked(FieldLines(m.fields)) <==> SaysChunked(m.fields)
    ensures Lookup(FieldLines(m.fields), "Content-Length", VALUE_SIZE)
         == match ValueOf(m.fields, "Content-Length") case None => None case Some(v) => Some(Cut(v))
  {
    hide SameLetters, SameIgnoringCase, Lookup, ValueOf, ContainsIgnoringCase, Cut, FieldLines, Mentions;
    SameLettersIs(verb, "HEAD");
    LookupIs(m.fields, "Transfer-Encoding");
    LookupIs(m.fields, "Content-Length");
    var coding := ValueOf(m.fields, "Transfer-Encoding");
    if coding.Some? { MentionsIs(Cut(coding.value), "chunked"); }
  }

  /** Interim responses are skipped; of the final one its code and its header lines are reported.
      HEAD, 204 and 304 have no body. Without a chunked coding and a Content-Length the body is
      everything up to the end of the connection, and complete if that end is clean. */
  lemma MessageReceived(interim: seq<Message>, final: Message, payload: string, verb: string, broken: bool)
    requires forall m <- interim :: m.Valid() && 100 <= m.code <= 199
    requires final.Valid() && !(100 <= final.code <= 199)
    ensures var r := ResponseFrom(Texts(interim) + final.Text() + payload, verb, broken);
      && r.status == final.code && r.headers == final.Block()
      && (HasNoBody(verb, final.code) ==> r.failure == None && r.body == "")
      && (!HasNoBody(verb, final.code) && !SaysChunked(final.fields)
          && ValueOf(final.fields, "Content-Length") == None ==>
            r.body == payload && r.failure == if broken then Some(BodyUnreadable) else None)
  {
    hide *;
    HeadOf(final);
    HeadsOf(interim);
    FramingMeans(final, verb);
    OtherResponse(AsHeads(interim), final.AsHead(), verb, payload, broken);
    AsHeadIs(final);
  }

  lemma AsHeadIs(m: Message)
    ensures m.AsHead().status == m.code && m.AsHead().lines == FieldLines(m.fields)
    ensures m.Block() == Join(FieldLines(m.fields))
  {
  }

  /** A Content-Length that writes n, without a chunked coding, frames exactly n bytes; a stream that
      ends before is a failure. */
  lemma LengthReceived(interim: seq<Message>, final: Message, n: nat, payload: string, verb: string, broken: bool)
    requires forall m <- interim :: m.Valid() && 100 <= m.code <= 199
    requires final.Valid() && !(100 <= final.code <= 199)
    requires !HasNoBody(verb, final.code) && !SaysChunked(final.fields)
    requires var v := ValueOf(final.fields, "Content-Length");
      v.Some? && |v.value| <= 255 && Denotes(v.value, n, 10) && n < 0xffff_ffff_ffff_ffff
    ensures ResponseFrom(Texts(interim) + final.Text() + payload, verb, broken)
         == if |payload| >= n then Response(None, final.code, final.Block(), payload[..n])
            else Response(Some(BodyUnreadable), final.code, final.Block(), payload)
  {
    hide *;
    HeadOf(final);
    HeadsOf(interim);
    FramingMeans(final, verb);
    AsHeadIs(final);
    var v := ValueOf(final.fields, "Content-Length").value;
    CutIs(v);
    DenotesValue(v, n, 10);
    SizeMaxIs();
    LengthResponse(AsHeads(interim), final.AsHead(), verb, v, payload, broken);
  }

  lemma CutIs(s: string)
    requires |s| <= 255
    ensures Cut(s) == s
  {
  }

  lemma SizeMaxIs()
    ensures SIZE_MAX == 0xffff_ffff_ffff_ffff
  {
  }

  /** A chunk head: the length of the chunk in hexadecimal, and maybe an extension. */
  predicate SentHead(c: Chunk, length: nat) {
    && Denotes(c.size, length, 16) && OneLine(c.extension) && |c.size + c.extension| < 1024
    && (c.extension != "" ==> c.extension[0] == ';' || c.extension[0] == ' ' || c.extension[0] == '\t')
  }

  predicate SentChunk(c: Chunk) {
    0 < |c.data| < 0xffff_ffff_ffff_ffff && SentHead(c, |c.data|) && OneLine(c.slack) && |c.slack| < 1024
  }

  predicate SentTrailer(line: string) {
    line != "" && OneLine(line) && |line| < 1024
  }

  lemma SentHeadIs(c: Chunk, length: nat)
    requires SentHead(c, length)
    ensures ChunkHead(c.size, c.extension, length)
  {
    hide Denotes, AllDigits, Value;
    DenotesValue(c.size, length, 16);
    DigitsOneLine(c.size, 16);
  }

  lemma SentTrailersAre(trailers: seq<string>)
    requires forall line <- trailers :: SentTrailer(line)
    ensures forall line <- trailers :: Trailer(line)
  {
  }

  lemma {:induction false} SentChunksAre(chunks: seq<Chunk>)
    requires forall c <- chunks :: SentChunk(c)
    ensures forall c <- chunks :: WellFormed(c)
  {
    hide SentHead, ChunkHead;
    forall c | c in chunks
      ensures WellFormed(c)
    {
      SentHeadIs(c, |c.data|);
    }
  }

  /** With a chunked coding the chunk heads tell how much belongs to each chunk, and the body is the
      data of the chunks, whatever Content-Length says. */
  lemma ChunkedReceived(interim: seq<Message>, final: Message, chunks: seq<Chunk>, last: Chunk, trailers: seq<string>,
                        tail: string, verb: string, broken: bool)
    requires forall m <- interim :: m.Valid() && 100 <= m.code <= 199
    requires final.Valid() && !(100 <= final.code <= 199)
    requires !HasNoBody(verb, final.code) && SaysChunked(final.fields)
    requires forall c <- chunks :: SentChunk(c)
    requires SentHead(last, 0) && forall line <- trailers :: SentTrailer(line)
    ensures var payload := EncodeChunks(chunks) + EncodeEnd(last, trailers) + tail;
      ResponseFrom(Texts(interim) + final.Text() + payload, verb, broken)
      == Response(None, final.code, final.Block(), Data(chunks))
  {
    hide *;
    HeadOf(final);
    HeadsOf(interim);
    FramingMeans(final, verb);
    AsHeadIs(final);
    SentChunksAre(chunks);
    SentHeadIs(last, 0);
    SentTrailersAre(trailers);
    ChunkedResponse(AsHeads(interim), final.AsHead(), verb, chunks, last, trailers, tail, broken);
  }

  // ---- heads that fail ----

  lemma {:induction false} InterimsSkipped(interim: seq<Message>, rest: string, status: int)
    requires forall m <- interim :: m.Valid() && 100 <= m.code <= 199
    ensures HeadFrom(Texts(interim) + rest, status)
         == HeadFrom(rest, if interim == [] then status else interim[|interim| - 1].code)
  {
    hide *;
    TextsFirst(interim, rest);
    if interim != [] {
      var m, more := interim[0], Texts(interim[1..]) + rest;
      assert m in interim;
      HeadOf(m);
      AsHeadIs(m);
      HeadRead(m.AsHead(), more, status);
      InterimNext(m.Text() + more, status);
      InterimsSkipped(interim[1..], rest, m.code);
    }
  }

  lemma TextsFirst(messages: seq<Message>, rest: string)
    ensures messages == [] ==> Texts(messages) + rest == rest
    ensures messages != [] ==> Texts(messages) + rest == messages[0].Text() + (Texts(messages[1..]) + rest)
  {
  }

  lemma InterimNext(s: string, status: int)
    ensures var h := OneHead(s, status);
      h.Head? && 100 <= h.status <= 199 ==> HeadFrom(s, status) == HeadFrom(h.rest, h.status)
  {
    hide OneHead;
  }

  /** A header block over the limit, its line breaks included, is refused. */
  lemma {:induction false} BlockTooLarge(lines: seq<string>, rest: string, length: nat)
    requires forall line <- lines :: HeadLine(line) && line != ""
    requires length <= 65536 < length + |Join(lines)|
    ensures HeadersFrom(Join(lines) + "\r\n" + rest, length) == LinesFail(HeadersTooLarge)
  {
    hide *;
    SomeLines(lines, length);
    var line, more := lines[0], Join(lines[1..]) + "\r\n" + rest;
    assert line in lines;
    JoinFirst(lines, rest);
    HeadLineRead(line, more);
    HeadersNext(Join(lines) + "\r\n" + rest, line, more, length);
    if length + |line| + 2 <= 65536 {
      BlockTooLarge(lines[1..], rest, length + |line| + 2);
      PrependFail([line]);
    }
  }

  lemma SomeLines(lines: seq<string>, length: nat)
    requires length <= 65536 < length + |Join(lines)|
    ensures lines != []
  {
  }

  lemma PrependFail(lines: seq<string>)
    ensures forall f :: Prepend(lines, LinesFail(f)) == LinesFail(f)
  {
  }

  lemma FirstLineEnds(line: string, rest: string, got: string, missing: string)
    requires OneLine(line) && line + "\r\n" + rest == got + missing
    ensures '\n' in got <==> |got| >= |line| + 2
    ensures |got| >= |line| + 2 ==>
      got == line + "\r\n" + got[|line| + 2..] && rest == got[|line| + 2..] + missing
  {
    var all, n := line + "\r\n" + rest, |line|;
    assert all[..|got|] == got && all[|got|..] == missing;
    assert all[..n + 2] == line + "\r\n" && all[n + 2..] == rest;
    if |got| >= n + 2 {
      assert got[n + 1] == all[n + 1] == '\n';
      assert got[..n + 2] == line + "\r\n";
    } else {
      forall i | 0 <= i < |got| ensures got[i] != '\n' {
        assert got[i] == all[i] == (line + "\r\n")[i];
        if i < n { assert got[i] in line; }
      }
    }
  }

  lemma {:induction false} BlockTruncated(lines: seq<string>, got: string, missing: string, length: nat)
    requires forall line <- lines :: HeadLine(line) && line != ""
    requires length + |Join(lines)| <= 65536 && Join(lines) + "\r\n" == got + missing && missing != ""
    ensures HeadersFrom(got, length) == LinesFail(MalformedHeaders)
  {
    hide *;
    if '\n' !in got {
      NoLineFeed(got, HEAD_LINE_SIZE, "");
      HeadersStop(got, length);
    } else if lines == [] {
      OnlyBreak(got, missing);
    } else {
      var line, rest := lines[0], Join(lines[1..]) + "\r\n";
      assert line in lines;
      JoinFirst(lines, "");
      assert rest + "" == rest && Join(lines) + "\r\n" + "" == Join(lines) + "\r\n";
      HeadLineIs(line);
      FirstLineEnds(line, rest, got, missing);
      var t := got[|line| + 2..];
      HeadLineRead(line, t);
      HeadersNext(got, line, t, length);
      BlockTruncated(lines[1..], t, missing, length + |line| + 2);
      PrependFail([line]);
    }
  }

  lemma JoinFirst(lines: seq<string>, rest: string)
    requires lines != []
    ensures Join(lines) + "\r\n" + rest == lines[0] + "\r\n" + (Join(lines[1..]) + "\r\n" + rest)
    ensures |Join(lines)| == |lines[0]| + 2 + |Join(lines[1..])|
  {
  }

  lemma OnlyBreak(got: string, missing: string)
    requires Join([]) + "\r\n" == got + missing && missing != ""
    ensures '\n' !in got
  {
    assert Join([]) + "\r\n" == "\r\n";
    assert |got| + |missing| == 2;
    forall i | 0 <= i < |got| ensures got[i] != '\n' { assert got[i] == (got + missing)[i]; }
  }

  lemma HeadLineIs(line: string)
    requires HeadLine(line)
    ensures OneLine(line)
  {
  }

  lemma HeadersStop(s: string, length: nat)
    requires LineFrom(s, HEAD_LINE_SIZE, "") == LineFail
    ensures HeadersFrom(s, length) == LinesFail(MalformedHeaders)
  {
  }

  lemma HeadersNext(s: string, line: string, rest: string, length: nat)
    requires var r := LineFrom(s, HEAD_LINE_SIZE, "");
      r.Line? && CStr(r.text) == line && r.rest == rest
    requires line != ""
    ensures length + |line| + 2 > 65536 ==> HeadersFrom(s, length) == LinesFail(HeadersTooLarge)
    ensures length + |line| + 2 <= 65536 ==>
      HeadersFrom(s, length) == Prepend([line], HeadersFrom(rest, length + |line| + 2))
  {
    hide LineFrom, CStr;
  }

  /** A head that ends early is no response while the status line is not complete, and malformed
      behind it. */
  lemma HeadTruncated(interim: seq<Message>, final: Message, got: string, missing: string, verb: string, broken: bool)
    requires forall m <- interim :: m.Valid() && 100 <= m.code <= 199
    requires final.Valid() && final.Text() == got + missing && missing != ""
    ensures var r := ResponseFrom(Texts(interim) + got, verb, broken);
      && r.body == "" && r.headers == ""
      && (if '\n' in got then r.failure == Some(MalformedHeaders) && r.status == final.code
          else r.failure == Some(NoResponse)
               && r.status == if interim == [] then 0 else interim[|interim| - 1].code)
  {
    hide *;
    InterimsSkipped(interim, got, 0);
    HeadTruncatedOne(final, got, missing, if interim == [] then 0 else interim[|interim| - 1].code);
    FailureReported(Texts(interim) + got, verb, broken);
  }

  lemma FailureReported(s: string, verb: string, broken: bool)
    ensures HeadFrom(s, 0).HeadFail? ==>
      ResponseFrom(s, verb, broken) == Response(Some(HeadFrom(s, 0).failure), HeadFrom(s, 0).status, "", "")
  {
  }

  lemma HeadTruncatedOne(m: Message, got: string, missing: string, status: int)
    requires m.Valid() && m.Text() == got + missing && missing != ""
    ensures HeadFrom(got, status)
         == if '\n' in got then HeadFail(MalformedHeaders, m.code) else HeadFail(NoResponse, status)
  {
    hide LineFrom, CStr, ScanStatus, HeadersFrom, Join, FieldLines, IsNumber, Denotes, OneLine;
    CodeReported(m);
    LinesAreFields(m.fields);
    var rest := m.Block() + "\r\n";
    assert m.Text() == m.StatusText() + "\r\n" + rest;
    FirstLineEnds(m.StatusText(), rest, got, missing);
    if '\n' in got {
      var t := got[|m.StatusText()| + 2..];
      StatusIsHeadLine(m);
      HeadLineRead(m.StatusText(), t);
      BlockTruncated(FieldLines(m.fields), t, missing, 0);
    } else {
      NoLineFeed(got, HEAD_LINE_SIZE, "");
    }
  }

  lemma StatusIsHeadLine(m: Message)
    requires OneLine(m.StatusText()) && |m.StatusText()| < 8192
    ensures HeadLine(m.StatusText())
  {
  }

  /** Header lines of more than 65536 characters, line breaks included, fail the response; up to
      that they do not (MessageReceived). */
  lemma HeadTooLarge(interim: seq<Message>, final: Message, rest: string, verb: string, broken: bool)
    requires forall m <- interim :: m.Valid() && 100 <= m.code <= 199
    requires final.Proper() && |final.Block()| > 65536
    ensures ResponseFrom(Texts(interim) + final.Text() + rest, verb, broken)
         == Response(Some(HeadersTooLarge), final.code, "", "")
  {
    hide *;
    assert Texts(interim) + final.Text() + rest == Texts(interim) + (final.Text() + rest);
    InterimsSkipped(interim, final.Text() + rest, 0);
    HeadTooLargeOne(final, rest, if interim == [] then 0 else interim[|interim| - 1].code);
    FailureReported(Texts(interim) + final.Text() + rest, verb, broken);
  }

  lemma HeadTooLargeOne(m: Message, rest: string, status: int)
    requires m.Proper() && |m.Block()| > 65536
    ensures HeadFrom(m.Text() + rest, status) == HeadFail(HeadersTooLarge, m.code)
  {
    hide LineFrom, CStr, ScanStatus, HeadersFrom, Join, FieldLines, IsNumber, Denotes, OneLine;
    CodeReported(m);
    LinesAreFields(m.fields);
    var more := m.Block() + "\r\n" + rest;
    assert m.Text() + rest == m.StatusText() + "\r\n" + more;
    StatusIsHeadLine(m);
    HeadLineRead(m.StatusText(), more);
    BlockTooLarge(FieldLines(m.fields), rest, 0);
  }

  // ---- status lines that are none ----

  /** A first line that does not start with "HTTP/", or has no status behind its version, is not
      taken for a response. */
  lemma StatusMalformed(line: string, major: string, minor: string, reason: string, rest: string, verb: string,
                        broken: bool)
    requires OneLine(line) && |line| < 8192
    requires !("HTTP/" <= line) || (
        line == "HTTP/" + major + "." + minor + reason && IsNumber(major) && IsNumber(minor)
        && NoDigits(reason))
    ensures ResponseFrom(line + "\r\n" + rest, verb, broken) == Response(Some(MalformedStatusLine), 0, "", "")
  {
    hide *;
    StatusIsOneLine(line);
    HeadLineRead(line, rest);
    if "HTTP/" <= line { NoCode(line, major, minor, reason); } else { NoPrefix(line); }
    MalformedOne(line + "\r\n" + rest, line);
    FailureReported(line + "\r\n" + rest, verb, broken);
  }

  lemma StatusIsOneLine(line: string)
    requires OneLine(line) && |line| < 8192
    ensures HeadLine(line)
  {
  }

  lemma NoPrefix(line: string)
    requires !("HTTP/" <= line)
    ensures ScanStatus(line) == None
  {
  }

  lemma MalformedOne(s: string, line: string)
    requires var r := LineFrom(s, HEAD_LINE_SIZE, "");
      r.Line? && CStr(r.text) == line
    requires ScanStatus(line) == None
    ensures HeadFrom(s, 0) == HeadFail(MalformedStatusLine, 0)
  {
    hide LineFrom, CStr, ScanStatus, HeadersFrom;
  }

  lemma NoCode(line: string, major: string, minor: string, reason: string)
    requires line == "HTTP/" + major + "." + minor + reason && IsNumber(major) && IsNumber(minor)
    requires NoDigits(reason)
    ensures ScanStatus(line) == None
  {
    hide ScanInt, SkipSpaces, AllDigits, Value;
    NumberIs(major);
    NumberIs(minor);
    var afterMajor := "." + minor + reason;
    assert line == "HTTP/" + (major + afterMajor) && line[5..] == major + afterMajor;
    ScanPlain(major, afterMajor);
    assert afterMajor[1..] == minor + reason;
    FirstIsNoDigit(reason);
    ScanPlain(minor, reason);
    SkipKeeps(reason);
    NothingToScan(SkipSpaces(reason));
  }

  // ---- lines that are too long ----

  /** A line that does not fit its buffer fails: 8192 bytes for a status line or a header line, 1024
      for a chunk head. */
  lemma LongLinesFail(m: Message, line: string, rest: string, verb: string, broken: bool)
    requires m.Proper() && OneLine(line)
    ensures |line| >= 8192 ==>
      ResponseFrom(line + "\r\n" + rest, verb, broken) == Response(Some(NoResponse), 0, "", "")
    ensures |line| >= 8192 ==>
      ResponseFrom(m.StatusText() + "\r\n" + (line + "\r\n" + rest), verb, broken)
      == Response(Some(MalformedHeaders), m.code, "", "")
    ensures |line| >= 1024 ==> ChunkedFrom(line + "\r\n" + rest, broken) == Body(false, "", "")
  {
    hide *;
    var s := line + "\r\n" + rest;
    if |line| >= 8192 {
      TooLong(line, rest, 8192);
      SizesAre();
      NothingRead(s, 0);
      FailureReported(s, verb, broken);
      CodeReported(m);
      ProperStatus(m);
      StatusIsHeadLine(m);
      HeadLineRead(m.StatusText(), s);
      HeadersStop(s, 0);
      HeadersFail(m.StatusText() + "\r\n" + s, m.StatusText(), s, m.code);
      FailureReported(m.StatusText() + "\r\n" + s, verb, broken);
    }
    if |line| >= 1024 {
      TooLong(line, rest, 1024);
      SizesAre();
      NoChunkHead(s, broken);
    }
  }

  lemma SizesAre()
    ensures HEAD_LINE_SIZE == 8192 && LINE_SIZE == 1024
  {
  }

  lemma ProperStatus(m: Message)
    requires m.Proper()
    ensures |m.StatusText()| < 8192
  {
  }

  lemma TooLong(line: string, rest: string, size: nat)
    requires OneLine(line) && |line| >= size > 0
    ensures LineFrom(line + "\r\n" + rest, size, "") == LineFail
  {
    hide LineFrom, HttpConnection.WithoutCR;
    var before := line + "\r";
    assert line + "\r\n" + rest == before + "\n" + rest;
    LineFromIs(before + "\n" + rest, size, "", before, rest);
    CRAtEnd(line);
    WithoutCRIs(line);
  }

  lemma NothingRead(s: string, status: int)
    requires LineFrom(s, HEAD_LINE_SIZE, "") == LineFail
    ensures HeadFrom(s, status) == HeadFail(NoResponse, status)
  {
  }

  lemma HeadersFail(s: string, line: string, rest: string, code: int)
    requires var r := LineFrom(s, HEAD_LINE_SIZE, "");
      r.Line? && CStr(r.text) == line && r.rest == rest
    requires ScanStatus(line) == Some(code) && HeadersFrom(rest, 0) == LinesFail(MalformedHeaders)
    ensures HeadFrom(s, 0) == HeadFail(MalformedHeaders, code)
  {
    hide LineFrom, CStr, ScanStatus, HeadersFrom;
  }

  lemma NoChunkHead(s: string, broken: bool)
    requires LineFrom(s, LINE_SIZE, "") == LineFail
    ensures ChunkedFrom(s, broken) == Body(false, "", "")
  {
    hide LineFrom;
  }
}
