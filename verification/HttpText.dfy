/** getHTTPHeader of src/lib/nh-network/HTTPClient.c. */
module HttpText {
  import opened CText

  predicate IsBlank(c: char) { c == ' ' || c == '\t' }

  function TrimLeft(s: string): (r: string)
    ensures |r| <= |s|
  {
    if s != "" && IsBlank(s[0]) then TrimLeft(s[1..]) else s
  }

  function TrimRight(s: string): (r: string)
    ensures |r| <= |s|
  {
    if s != "" && IsBlank(s[|s| - 1]) then TrimRight(s[..|s| - 1]) else s
  }

  /** The line is "name:..." up to case. */
  predicate NameMatches(line: string, name: string) {
    |line| > |name| && SameIgnoringCase(line[..|name|], name) && line[|name|] == ':'
  }

  /** The trimmed value of a matching line, cut to fit a buffer of the given size. */
  function FieldValue(line: string, name: string, size: nat): string
    requires NameMatches(line, name) && size > 0
  {
    var v := TrimRight(TrimLeft(line[|name| + 1..]));
    if |v| >= size then v[..size - 1] else v
  }

  /** The first matching line of a list. */
  function Lookup(lines: seq<string>, name: string, size: nat): Option<string>
    requires size > 0
  {
    if lines == [] then None
    else if NameMatches(lines[0], name) then Some(FieldValue(lines[0], name, size))
    else Lookup(lines[1..], name, size)
  }

  /** Header lines as receiveResponse stores them. */
  function Join(lines: seq<string>): string {
    if lines == [] then "" else lines[0] + "\r\n" + Join(lines[1..])
  }

  lemma {:induction false} JoinAppend(lines: seq<string>, line: string)
    ensures Join(lines + [line]) == Join(lines) + line + "\r\n"
  {
    if lines == [] {
      assert [line][1..] == [];
      assert Join([line]) == line + "\r\n" + "";
      assert lines + [line] == [line];
    } else {
      assert (lines + [line])[1..] == lines[1..] + [line];
      JoinAppend(lines[1..], line);
      assert lines[0] + "\r\n" + (Join(lines[1..]) + line + "\r\n") == Join(lines) + line + "\r\n";
    }
  }

  /** strstr(s, "\r\n"), or the end of s. */
  function LineEnd(s: string): (e: nat)
    ensures e <= |s|
  {
    if s == "" then 0
    else if |s| >= 2 && s[0] == '\r' && s[1] == '\n' then 0
    else 1 + LineEnd(s[1..])
  }

  /** The scan of getHTTPHeader over the flat block. */
  function LookupFlat(block: string, name: string, size: nat): Option<string>
    requires size > 0
    decreases |block|
  {
    if block == "" then None
    else
      var e := LineEnd(block);
      if NameMatches(block[..e], name) then Some(FieldValue(block[..e], name, size))
      else LookupFlat(if e + 2 <= |block| then block[e + 2..] else "", name, size)
  }

  lemma {:induction false} LineEndIs(line: string, rest: string)
    requires '\r' !in line
    ensures LineEnd(line + "\r\n" + rest) == |line|
  {
    if line == "" {
      assert line + "\r\n" + rest == "\r\n" + rest;
    } else {
      assert line[0] in line;
      assert (line + "\r\n" + rest)[1..] == line[1..] + "\r\n" + rest;
      LineEndIs(line[1..], rest);
    }
  }

  /** Scanning the flat block gives what a scan of the received lines gives. */
  lemma {:induction false} LookupAgrees(lines: seq<string>, name: string, size: nat)
    requires size > 0 && forall line <- lines :: '\r' !in line
    ensures LookupFlat(Join(lines), name, size) == Lookup(lines, name, size)
  {
    if lines != [] {
      var block, rest := Join(lines), Join(lines[1..]);
      LineEndIs(lines[0], rest);
      assert block[..|lines[0]|] == lines[0];
      assert block[|lines[0]| + 2..] == rest;
      LookupAgrees(lines[1..], name, size);
    }
  }

  /** Not found exactly when no line matches. */
  lemma {:induction false} LookupNone(lines: seq<string>, name: string, size: nat)
    requires size > 0
    ensures Lookup(lines, name, size) == None <==> forall line <- lines :: !NameMatches(line, name)
  {
    if lines != [] {
      LookupNone(lines[1..], name, size);
      assert lines[0] in lines;
    }
  }

  lemma TrimLeftStep(s: string, i: nat, end: nat)
    requires i <= end <= |s|
    ensures TrimLeft(s[i..end]) == if i < end && IsBlank(s[i]) then TrimLeft(s[i + 1..end]) else s[i..end]
  {
    if i < end { assert s[i..end][1..] == s[i + 1..end]; }
  }

  lemma TrimRightStep(s: string, i: nat, end: nat)
    requires i <= end <= |s|
    ensures TrimRight(s[i..end]) == if i < end && IsBlank(s[end - 1]) then TrimRight(s[i..end - 1]) else s[i..end]
  {
    if i < end { assert s[i..end][..end - i - 1] == s[i..end - 1]; }
  }

  /** The two trimming loops of getHTTPHeader: blanks at both ends of headers[from..end]. */
  method TrimField(headers: string, from: nat, end: nat) returns (start: nat, length: nat)
    requires from <= end <= |headers|
    ensures start + length <= end && headers[start..start + length] == TrimRight(TrimLeft(headers[from..end]))
  {
    hide TrimLeft, TrimRight;
    start := from;
    while start < end && IsBlank(headers[start])
      invariant from <= start <= end
      invariant TrimLeft(headers[from..end]) == TrimLeft(headers[start..end])
    {
      TrimLeftStep(headers, start, end);
      start := start + 1;
    }
    TrimLeftStep(headers, start, end);
    length := end - start;
    while length > 0 && IsBlank(headers[start + length - 1])
      invariant 0 <= length <= end - start
      invariant TrimRight(headers[start..end]) == TrimRight(headers[start..start + length])
    {
      TrimRightStep(headers, start, start + length);
      length := length - 1;
    }
    TrimRightStep(headers, start, start + length);
  }

  /** getHTTPHeader on the C string headers; the value as it lands in a buffer of the given size. */
  method GetHTTPHeader(headers: string, name: string, size: nat) returns (r: Option<string>)
    requires size > 0
    ensures r == LookupFlat(headers, name, size)
  {
    hide LookupFlat, LineEnd, SameIgnoringCase, TrimLeft, TrimRight;
    var line := 0;
    assert headers[0..] == headers;
    while line < |headers|
      invariant line <= |headers|
      invariant LookupFlat(headers, name, size) == LookupFlat(headers[line..], name, size)
      decreases |headers| - line
    {
      ghost var rest := headers[line..];
      LookupStep(rest, name, size);
      var e := LineEnd(headers[line..]);
      var end := line + e;
      ghost var text := rest[..e];
      assert |text| > |name| ==> text[..|name|] == headers[line..line + |name|];
      if end - line > |name| && SameIgnoringCase(headers[line..line + |name|], name)
         && headers[line + |name|] == ':' {
        assert text[|name| + 1..] == headers[line + |name| + 1..end];
        var start, length := TrimField(headers, line + |name| + 1, end);
        if length >= size {
          assert headers[start..start + length][..size - 1] == headers[start..start + (size - 1)];
          length := size - 1;
        }
        return Some(headers[start..start + length]);
      }
      LineEndInside(rest);
      line := if end < |headers| then end + 2 else end;
      assert headers[line..] == if e + 2 <= |rest| then rest[e + 2..] else "";
    }
    assert headers[line..] == "";
    LookupStep("", name, size);
    r := None;
  }

  lemma {:induction false} LineEndInside(s: string)
    ensures LineEnd(s) < |s| ==> LineEnd(s) + 2 <= |s|
  {
    if s != "" { LineEndInside(s[1..]); }
  }

  lemma LookupStep(block: string, name: string, size: nat)
    requires size > 0
    ensures LookupFlat(block, name, size)
         == if block == "" then None
            else
              var e := LineEnd(block);
              if NameMatches(block[..e], name) then Some(FieldValue(block[..e], name, size))
              else LookupFlat(if e + 2 <= |block| then block[e + 2..] else "", name, size)
  {
  }
}
