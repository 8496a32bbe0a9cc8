/** The buffered reads of src/lib/nh-network/HTTPClient.c over a byte stream that arrives in
    arbitrary pieces. */
module HttpConnection {

  const BUFFER_SIZE := 16384

  /** The transport: the bytes still to come, and whether they end in an error or in a clean end
      of stream. A read returns 1..size of them, as many as it likes. */
  class Socket {
    var rest: string
    const broken: bool

    constructor (bytes: string, broken: bool)
      ensures rest == bytes && this.broken == broken
    {
      rest := bytes;
      this.broken := broken;
    }

    /** readRaw: the number of bytes read into buffer, 0 at the end of the stream, -1 on an error. */
    method ReadRaw(buffer: array<char>) returns (n: int)
      requires buffer.Length > 0
      modifies this, buffer
      ensures -1 <= n <= buffer.Length && n <= |old(rest)|
      ensures old(rest) == "" ==> rest == "" && n == if broken then -1 else 0
      ensures old(rest) != "" ==> n > 0 && buffer[..n] == old(rest)[..n] && rest == old(rest)[n..]
    {
      if rest == "" {
        n := if broken then -1 else 0;
      } else {
        n :| 1 <= n <= buffer.Length && n <= |rest|;
        forall i | 0 <= i < n { buffer[i] := rest[i]; }
        rest := rest[n..];
      }
    }
  }

  // ---- lines ----

  datatype LineResult = LineFail | Line(text: string, rest: string)

  /** What readLine makes of the stream s when `line` was read already: up to the next line feed,
      without carriage returns, at most size - 1 characters. */
  function LineFrom(s: string, size: nat, line: string): LineResult {
    if s == "" then LineFail
    else if s[0] == '\n' then Line(line, s[1..])
    else if s[0] == '\r' then LineFrom(s[1..], size, line)
    else if |line| + 1 >= size then LineFail
    else LineFrom(s[1..], size, line + [s[0]])
  }

  function WithoutCR(s: string): string {
    if s == "" then "" else if s[0] == '\r' then WithoutCR(s[1..]) else [s[0]] + WithoutCR(s[1..])
  }

  /** readLine in terms of the stream alone: it succeeds exactly when there is a line feed and the
      line in front of it fits. */
  lemma {:induction false} LineFromIs(s: string, size: nat, line: string, before: string, after: string)
    requires '\n' !in before && s == before + "\n" + after && size > 0 && |line| < size
    ensures LineFrom(s, size, line)
         == if |line| + |WithoutCR(before)| < size then Line(line + WithoutCR(before), after) else LineFail
  {
    if before == "" {
      assert s == "\n" + after;
      assert line + "" == line;
    } else {
      assert s[0] == before[0] && s[1..] == before[1..] + "\n" + after;
      assert before[0] in before;
      if before[0] == '\r' {
        LineFromIs(s[1..], size, line, before[1..], after);
      } else if |line| + 1 < size {
        LineFromIs(s[1..], size, line + [before[0]], before[1..], after);
        assert line + [before[0]] + WithoutCR(before[1..]) == line + ([before[0]] + WithoutCR(before[1..]));
      }
    }
  }

  lemma {:induction false} NoLineFeed(s: string, size: nat, line: string)
    requires '\n' !in s
    ensures LineFrom(s, size, line) == LineFail
  {
    if s != "" {
      assert s[0] in s;
      NoLineFeed(s[1..], size, if s[0] == '\r' then line else line + [s[0]]);
    }
  }

  lemma {:induction false} WithoutCRIs(s: string)
    requires '\r' !in s
    ensures WithoutCR(s) == s
  {
    if s != "" {
      assert s[0] in s;
      WithoutCRIs(s[1..]);
    }
  }

  /** A well-formed line is read as it was written. */
  lemma LineRead(text: string, after: string, size: nat)
    requires '\n' !in text && '\r' !in text && |text| < size
    ensures LineFrom(text + "\r\n" + after, size, "") == Line(text, after)
  {
    var before := text + "\r";
    assert text + "\r\n" + after == before + "\n" + after;
    LineFromIs(before + "\n" + after, size, "", before, after);
    CRAtEnd(text);
    WithoutCRIs(text);
  }

  lemma {:induction false} CRAtEnd(s: string)
    ensures WithoutCR(s + "\r") == WithoutCR(s)
  {
    if s == "" {
      assert s + "\r" == "\r";
      assert "\r"[1..] == "";
    } else {
      assert (s + "\r")[1..] == s[1..] + "\r";
      CRAtEnd(s[1..]);
    }
  }

  /** More bytes behind the stream do not change a line that was complete. */
  lemma {:induction false} LineStays(s: string, more: string, size: nat, line: string)
    ensures LineFrom(s, size, line).Line? ==>
      LineFrom(s + more, size, line) == Line(LineFrom(s, size, line).text, LineFrom(s, size, line).rest + more)
  {
    if s != "" {
      assert (s + more)[0] == s[0] && (s + more)[1..] == s[1..] + more;
      LineStays(s[1..], more, size, line);
      LineStays(s[1..], more, size, line + [s[0]]);
    }
  }

  lemma {:induction false} LineShortens(s: string, size: nat, line: string)
    ensures LineFrom(s, size, line).Line? ==>
      |LineFrom(s, size, line).rest| < |s|
      && LineFrom(s, size, line).rest == s[|s| - |LineFrom(s, size, line).rest|..]
  {
    if s != "" {
      LineShortens(s[1..], size, line);
      LineShortens(s[1..], size, line + [s[0]]);
    }
  }

  class Connection {
    const socket: Socket
    const buffer: array<char>
    var position: nat
    var length: nat

    ghost predicate Valid()
      reads this
    {
      position <= length <= buffer.Length && buffer.Length == BUFFER_SIZE
    }

    /** The bytes not consumed yet, in the buffer and in the transport. */
    ghost function Stream(): string
      reads this, socket, buffer
      requires Valid()
    {
      buffer[position..length] + socket.rest
    }

    constructor (socket: Socket)
      ensures Valid() && this.socket == socket && fresh(buffer) && Stream() == socket.rest
    {
      this.socket := socket;
      buffer := new char[BUFFER_SIZE](_ => '\0');
      position, length := 0, 0;
    }

    /** fillBuffer: afterwards there is a byte in the buffer, unless the stream is over. */
    method FillBuffer() returns (ok: bool, eof: bool)
      requires Valid()
      modifies this, socket, buffer
      ensures Valid() && Stream() == old(Stream())
      ensures ok == !(Stream() == "" && socket.broken) && eof == (Stream() == "" && !socket.broken)
      ensures ok && !eof ==> position < length
    {
      eof := false;
      if position < length { return true, false; }
      var read := socket.ReadRaw(buffer);
      if read < 0 { return false, false; }
      if read == 0 { eof := true; }
      position := 0;
      length := read;
      ok := true;
      assert Stream() == old(socket.rest);
    }

    /** readLine into a C buffer: on success the line and a NUL behind it. */
    method ReadLine(line: array<char>) returns (ok: bool)
      requires Valid() && line != buffer && line.Length > 0
      modifies this, socket, buffer, line
      ensures Valid()
      ensures var r := LineFrom(old(Stream()), line.Length, "");
        && ok == r.Line?
        && (ok ==> Stream() == r.rest && |r.text| < line.Length
                   && line[..|r.text|] == r.text && line[|r.text|] == '\0')
    {
      ghost var all := Stream();
      var len := 0;
      while true
        invariant Valid() && len < line.Length
        invariant LineFrom(all, line.Length, "") == LineFrom(Stream(), line.Length, line[..len])
        decreases |Stream()|
      {
        ghost var s := Stream();
        var filled, eof := FillBuffer();
        if !filled || eof { return false; }
        var c := buffer[position];
        position := position + 1;
        assert s[0] == c && s[1..] == Stream();
        if c == '\n' { break; }
        if c == '\r' { continue; }
        if len + 1 >= line.Length { return false; }
        ghost var before := line[..len];
        line[len] := c;
        len := len + 1;
        assert line[..len] == before + [c];
      }
      ghost var text := line[..len];
      line[len] := '\0';
      assert line[..len] == text;
      ok := true;
    }
  }

  /** The growing buffer of appendToBuffer, with its NUL at the end. */
  class HTTPBuffer {
    var data: array<char>
    var length: nat

    ghost predicate Valid()
      reads this, data
    {
      (data.Length == 0 && length == 0) || (length < data.Length && data[length] == '\0')
    }

    ghost function Contents(): string
      reads this, data
      requires Valid()
    {
      data[..length]
    }

    constructor ()
      ensures Valid() && Contents() == "" && fresh(data)
    {
      data := new char[0];
      length := 0;
    }

    /** appendToBuffer: the capacity doubles from 1024 until bytes and NUL fit. */
    method Append(bytes: seq<char>)
      requires Valid()
      modifies this, data
      ensures Valid() && Contents() == old(Contents()) + bytes && data.Length > 0
      ensures data == old(data) || fresh(data)
    {
      if length + |bytes| + 1 > data.Length {
        var capacity := if data.Length > 0 then data.Length else 1024;
        while length + |bytes| + 1 > capacity
          invariant capacity >= 1
          decreases length + |bytes| + 1 - capacity
        {
          capacity := capacity * 2;
        }
        assert capacity >= length;
        var bigger := new char[capacity](_ => '\0');
        forall i | 0 <= i < length { bigger[i] := data[i]; }
        data := bigger;
      }
      assert data[..length] == old(Contents());
      forall i | 0 <= i < |bytes| { data[length + i] := bytes[i]; }
      length := length + |bytes|;
      data[length] := '\0';
      assert data[..length] == old(Contents()) + bytes;
    }
  }
}
