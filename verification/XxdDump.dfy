/** The dump side of external/xxd/xxd.c: the line buffer, the suppression of zero lines, and the
    PostScript loop. */
module XxdDump {
  import opened CText
  import opened Bytes
  import opened XxdFormat

  // ---- what is shown of a sequence of lines ----

  datatype Fed = Fed(text: string, zero: bool)

  /** The number of zero lines at the end. */
  function ZeroRun(fed: seq<Fed>): (k: nat)
    ensures k <= |fed|
  {
    if fed == [] || !fed[|fed| - 1].zero then 0 else 1 + ZeroRun(fed[..|fed| - 1])
  }

  /** What was held back and has to appear in front of the next line that is shown: a second
      zero line as it is, three or more zero lines as a star. */
  function Pending(fed: seq<Fed>): string {
    var k := ZeroRun(fed);
    if k == 2 then fed[|fed| - 1].text else if k >= 3 then "*\n" else ""
  }

  /** The text printed while the lines of fed come in: the first line of every run of zero lines
      is shown, the others wait. */
  function Shown(fed: seq<Fed>): string {
    if fed == [] then ""
    else
      var before, last := fed[..|fed| - 1], fed[|fed| - 1];
      if !last.zero then Shown(before) + Pending(before) + last.text
      else if ZeroRun(before) == 0 then Shown(before) + last.text
      else Shown(before)
  }

  lemma {:induction false} ShownExtend(fed: seq<Fed>, line: Fed)
    ensures ZeroRun(fed + [line]) == if line.zero then ZeroRun(fed) + 1 else 0
    ensures Shown(fed + [line])
         == if !line.zero then Shown(fed) + Pending(fed) + line.text
            else if ZeroRun(fed) == 0 then Shown(fed) + line.text
            else Shown(fed)
  {
    assert (fed + [line])[..|fed|] == fed;
  }

  /** At the end the last line counts as one that has to be shown. */
  function Closed(fed: seq<Fed>): seq<Fed> {
    if fed == [] then [] else fed[..|fed| - 1] + [fed[|fed| - 1].(zero := false)]
  }

  /** What closing adds to the text, by the number k of zero lines that came last. */
  lemma {:induction false} ClosedShown(fed: seq<Fed>)
    ensures ZeroRun(Closed(fed)) == 0
    ensures var k := ZeroRun(fed);
      Shown(Closed(fed)) == Shown(fed) +
        if k <= 1 then ""
        else (if k == 2 then "" else if k == 3 then fed[|fed| - 2].text else "*\n") + fed[|fed| - 1].text
  {
    hide Shown, ZeroRun;
    if fed != [] {
      var before, last := fed[..|fed| - 1], fed[|fed| - 1];
      assert fed == before + [last];
      ShownExtend(before, last);
      ShownExtend(before, last.(zero := false));
    }
  }

  lemma {:induction false} CStrIs(s: string, t: string)
    requires |t| < |s| && s[..|t|] == t && s[|t|] == '\0' && '\0' !in t
    ensures CStr(s) == t
  {
    if t != [] {
      assert s[0] == t[0] && s[1..][..|t| - 1] == t[1..];
      CStrIs(s[1..], t[1..]);
    }
  }

  /** xxdline with its two static variables and the stream it prints to. */
  class LinePrinter {
    var z: string
    var zeroSeen: int
    var out: string
    ghost var fed: seq<Fed>

    ghost predicate Valid()
      reads this
      ensures Valid() ==> out == Shown(fed)
    {
      && zeroSeen == ZeroRun(fed)
      && out == Shown(fed)
      && (zeroSeen >= 2 ==> z == fed[|fed| - zeroSeen + 1].text)
    }

    constructor ()
      ensures Valid() && fed == [] && out == ""
    {
      z, zeroSeen, out, fed := "", 0, "", [];
    }

    /** nz == 0 for a zero line, positive for a line to show, negative once at the end with the
        last line again. */
    method XxdLine(l: string, nz: int)
      requires Valid()
      requires nz < 0 && fed != [] ==> l == fed[|fed| - 1].text
      modifies this
      ensures Valid()
      ensures fed == if nz < 0 then Closed(old(fed)) else old(fed) + [Fed(l, nz == 0)]
      ensures out == Shown(fed)
    {
      hide Shown, ZeroRun, Closed;
      ClosedShown(fed);
      ShownExtend(fed, Fed(l, nz == 0));
      if nz == 0 && zeroSeen == 1 { z := l; }
      var seen := zeroSeen;
      if nz == 0 { zeroSeen := zeroSeen + 1; }
      if nz != 0 || seen == 0 {
        if nz != 0 {
          if nz < 0 { zeroSeen := zeroSeen - 1; }
          if zeroSeen == 2 { out := out + z; }
          if zeroSeen > 2 { out := out + "*\n"; }
        }
        if nz >= 0 || zeroSeen > 0 { out := out + l; }
        if nz != 0 { zeroSeen := 0; }
      }
      fed := if nz < 0 then Closed(fed) else fed + [Fed(l, nz == 0)];
    }
  }

  // ---- the normal dump ----

  datatype Layout = Layout(cols: nat, group: nat, upper: bool, autoskip: bool) {
    predicate Valid()
      ensures Valid() ==> 0 < group <= cols
    {
      0 < group <= cols <= MAX_COLS
    }
  }

  predicate AllZero(row: seq<byte>) {
    forall i :: 0 <= i < |row| ==> row[i] == 0
  }

  /** A partial line is always shown. */
  function PartialRow(f: Layout, offset: nat, row: seq<byte>): Fed
    requires f.Valid() && |row| < f.cols
  {
    Fed(Line(offset, row, f.cols, f.group, f.upper), false)
  }

  lemma PartialRowIs(f: Layout, offset: nat, row: seq<byte>)
    requires f.Valid() && |row| < f.cols
    ensures PartialRow(f, offset, row) == Fed(Line(offset, row, f.cols, f.group, f.upper), false)
  {
  }

  function FullRow(f: Layout, bytes: seq<byte>, offset: nat): Fed
    requires f.Valid() && offset + f.cols <= |bytes|
  {
    var row := bytes[offset..offset + f.cols];
    Fed(Line(offset, row, f.cols, f.group, f.upper), f.autoskip && AllZero(row))
  }

  /** The full rows of the first end bytes. */
  function Rows(f: Layout, bytes: seq<byte>, end: nat): seq<Fed>
    requires f.Valid() && end <= |bytes|
  {
    if end < f.cols then [] else Rows(f, bytes, end - f.cols) + [FullRow(f, bytes, end - f.cols)]
  }

  lemma FullRowIs(f: Layout, bytes: seq<byte>, start: nat)
    requires f.Valid() && start + f.cols <= |bytes|
    ensures Rows(f, bytes, start + f.cols) == Rows(f, bytes, start)
         + [Fed(Line(start, bytes[start..start + f.cols], f.cols, f.group, f.upper),
                f.autoskip && AllZero(bytes[start..start + f.cols]))]
  {
  }

  /** The largest multiple of cols up to n. */
  function FullPart(cols: nat, n: nat): (full: nat)
    requires cols > 0
    ensures full <= n < full + cols
  {
    if n < cols then 0 else FullPart(cols, n - cols) + cols
  }

  function NormalDump(f: Layout, bytes: seq<byte>): string
    requires f.Valid()
  {
    var full := FullPart(f.cols, |bytes|);
    var rows := Rows(f, bytes, full);
    if full < |bytes| then Shown(rows + [PartialRow(f, full, bytes[full..])])
    else if f.autoskip then Shown(Closed(rows))
    else Shown(rows)
  }

  /** The line buffer l starts with the finished part of a line. */
  ghost predicate Holds(f: Layout, l: seq<char>, offset: nat, row: seq<byte>)
    ensures Holds(f, l, offset, row) ==> f.Valid() && |row| <= f.cols && |l| == LINE_SIZE
  {
    && f.Valid() && |row| <= f.cols && |l| == LINE_SIZE
    && AsciiColumn(f.cols, f.group) + |row| + 2 <= LINE_SIZE
    && l[..AsciiColumn(f.cols, f.group) + |row|] == LineSoFar(offset, row, f.cols, f.group, f.upper)
  }

  lemma LineFits(f: Layout)
    requires f.Valid()
    ensures AsciiColumn(f.cols, f.group) + f.cols + 2 <= LINE_SIZE
  {
    var g, c := f.group, f.cols;
    assert c - 1 == g * ((c - 1) / g) + (c - 1) % g;
    if (c - 1) / g > 0 { MulAtLeast((c - 1) / g, g); }
  }

  /** The column formula of the source for the ASCII text. */
  lemma AsciiStart(f: Layout)
    requires f.Valid()
    ensures 12 + ((2 * f.group + 1) * f.cols - 1) / f.group == AsciiColumn(f.cols, f.group)
  {
    var g, c := f.group, f.cols;
    assert (2 * g + 1) * c - 1 == g * (2 * c) + (c - 1);
    DivOffset(g, 2 * c, c - 1);
  }

  lemma HoldsIff(f: Layout, l: seq<char>, offset: nat, row: seq<byte>)
    requires f.Valid() && |row| <= f.cols && |l| == LINE_SIZE
    ensures AsciiColumn(f.cols, f.group) + |row| + 2 <= LINE_SIZE
    ensures |LineSoFar(offset, row, f.cols, f.group, f.upper)| == AsciiColumn(f.cols, f.group) + |row|
    ensures Holds(f, l, offset, row)
       <==> l[..AsciiColumn(f.cols, f.group) + |row|] == LineSoFar(offset, row, f.cols, f.group, f.upper)
  {
    hide LineSoFar, AsciiColumn;
    LineFits(f);
  }

  /** Overwriting two blanks behind front + sep and the cell behind asc. */
  lemma Overwrite(l: seq<char>, front: string, sep: string, k: nat, asc: string, x: char, y: char, z: char)
    requires |front| + k + |asc| < |l| && l[..|front| + k + |asc|] == front + Blanks(k) + asc
    requires (sep == "" || sep == " ") && |sep| + 2 <= k
    ensures var h, a := |front| + |sep|, |front| + k + |asc|;
      l[h := x][h + 1 := y][a := z][..a + 1]
      == front + sep + [x, y] + Blanks(k - |sep| - 2) + (asc + [z])
  {
    var h, a := |front| + |sep|, |front| + k + |asc|;
    var old', new' := l[..a], l[h := x][h + 1 := y][a := z][..a + 1];
    forall i | 0 <= i < a + 1 && i != h && i != h + 1
      ensures new'[i] == if i < a then old'[i] else z
    {
    }
  }

  /** Both hexadecimal digits and the ASCII cell of one more byte extend the line by that byte. */
  lemma PutByte(f: Layout, l: seq<char>, offset: nat, row: seq<byte>, e: byte, sep: string)
    requires Holds(f, l, offset, row) && |row| < f.cols
    requires sep == "" || sep == " "
    requires HexArea(row + [e], f.group, f.upper) == HexArea(row, f.group, f.upper) + sep + BytePair(e, f.upper)
    ensures var col := AsciiColumn(f.cols, f.group);
      var h, a := 9 + |HexArea(row, f.group, f.upper)| + |sep|, col + |row|;
      && h + 1 < col && a + 3 <= LINE_SIZE
      && Holds(f, l[h := HexDigit(e / 16, f.upper)][h + 1 := HexDigit(e % 16, f.upper)][a := AsciiCell(e)],
               offset, row + [e])
  {
    hide *;
    var h, col := 9 + |HexArea(row, f.group, f.upper)| + |sep|, AsciiColumn(f.cols, f.group);
    LineFits(f);
    LineSoFarIs(f, offset, row);
    HoldsIff(f, l, offset, row);
    var front := Address(offset) + ":" + HexArea(row, f.group, f.upper);
    LineGrows(f, offset, row, e, sep);
    var x, y, z := HexDigit(e / 16, f.upper), HexDigit(e % 16, f.upper), AsciiCell(e);
    var l' := l[h := x][h + 1 := y][col + |row| := z];
    assert l'[..col + |row| + 1] == LineSoFar(offset, row + [e], f.cols, f.group, f.upper) by {
      Overwrite(l, front, sep, col - |front|, Ascii(row), x, y, z);
    }
    HoldsIff(f, l', offset, row + [e]);
  }

  lemma HexAreaGrows(f: Layout, row: seq<byte>, e: byte) returns (sep: string)
    requires f.Valid() && |row| < f.cols
    ensures sep == "" || sep == " "
    ensures HexArea(row + [e], f.group, f.upper) == HexArea(row, f.group, f.upper) + sep + BytePair(e, f.upper)
    ensures 10 + 2 * |row| + |row| / f.group == 9 + |HexArea(row, f.group, f.upper)| + |sep|
    ensures 9 + |HexArea(row, f.group, f.upper)| + |sep| + 4 <= AsciiColumn(f.cols, f.group)
  {
    var p, g, more := |row|, f.group, row + [e];
    assert more[..p] == row;
    HexAreaLength(row, g, f.upper);
    HexAreaFits(more, f.cols, g, f.upper);
    if p > 0 { GroupStep(p, g); } else { DivUnique(0, g, 0, 0); }
    sep := if p % g == 0 then " " else "";
  }

  lemma LineGrows(f: Layout, offset: nat, row: seq<byte>, e: byte, sep: string)
    requires f.Valid() && |row| < f.cols && |sep| <= 1
    requires HexArea(row + [e], f.group, f.upper) == HexArea(row, f.group, f.upper) + sep + BytePair(e, f.upper)
    ensures var hex, col := HexArea(row, f.group, f.upper), AsciiColumn(f.cols, f.group);
      && 9 + |hex| + |sep| + 2 <= col
      && LineSoFar(offset, row + [e], f.cols, f.group, f.upper)
         == (Address(offset) + ":" + hex) + sep + [HexDigit(e / 16, f.upper), HexDigit(e % 16, f.upper)]
            + Blanks(col - 9 - |hex| - |sep| - 2) + (Ascii(row) + [AsciiCell(e)])
  {
    hide *;
    PairIs(e, f.upper);
    LineSoFarIs(f, offset, row + [e]);
    AsciiGrows(row, e);
    Regroup(Address(offset) + ":", HexArea(row, f.group, f.upper), sep, BytePair(e, f.upper));
  }

  lemma PairIs(e: byte, upper: bool)
    ensures BytePair(e, upper) == [HexDigit(e / 16, upper), HexDigit(e % 16, upper)]
  {
  }

  lemma Regroup(a: string, b: string, c: string, d: string)
    ensures a + (b + c + d) == a + b + c + d
  {
  }

  lemma LineSoFarIs(f: Layout, offset: nat, row: seq<byte>)
    requires f.Valid() && |row| <= f.cols
    ensures var hex := HexArea(row, f.group, f.upper);
      && 9 + |hex| <= AsciiColumn(f.cols, f.group)
      && LineSoFar(offset, row, f.cols, f.group, f.upper)
         == Address(offset) + ":" + hex + Blanks(AsciiColumn(f.cols, f.group) - 9 - |hex|) + Ascii(row)
  {
    HexAreaFits(row, f.cols, f.group, f.upper);
  }

  lemma AsciiGrows(row: seq<byte>, e: byte)
    ensures Ascii(row + [e]) == Ascii(row) + [AsciiCell(e)]
  {
  }

  /** start is a multiple of cols. */
  ghost predicate LineStart(cols: nat, start: nat)
    requires cols > 0
  {
    start == 0 || (start >= cols && LineStart(cols, start - cols))
  }

  lemma {:induction false} FullPartIs(cols: nat, start: nat, p: nat)
    requires p < cols && LineStart(cols, start)
    ensures FullPart(cols, start + p) == start
  {
    if start > 0 {
      FullPartIs(cols, start - cols, p);
    }
  }

  lemma BeforeFirstLine(f: Layout, bytes: seq<byte>)
    requires f.Valid()
    ensures 0 < f.cols && 0 < LINE_SIZE && LineStart(f.cols, 0) && Rows(f, bytes, 0) == [] && AllZero([])
  {
  }

  lemma NextLineStart(f: Layout, start: nat)
    requires f.Valid() && LineStart(f.cols, start)
    ensures LineStart(f.cols, start + f.cols)
  {
  }

  lemma AfterLastLine(f: Layout, bytes: seq<byte>, start: nat, row: seq<byte>)
    requires f.Valid() && LineStart(f.cols, start) && |row| < f.cols
    requires start <= |bytes| && row == bytes[start..]
    ensures NormalDump(f, bytes)
         == var rows := Rows(f, bytes, start);
            if row != [] then Shown(rows + [PartialRow(f, start, row)])
            else if f.autoskip then Shown(Closed(rows))
            else Shown(rows)
  {
    hide PartialRow, Shown, Closed, Rows, FullPart;
    FullPartIs(f.cols, start, |row|);
  }

  /** Ends the line in the buffer with a line break and a NUL, and returns it as a C string. */
  method EndLine(f: Layout, l: array<char>, ghost offset: nat, ghost row: seq<byte>, p: nat) returns (line: string)
    requires Holds(f, l[..], offset, row) && p == |row|
    modifies l
    ensures line == CStr(l[..]) == Line(offset, row, f.cols, f.group, f.upper)
  {
    LineFits(f);
    AsciiStart(f);
    LinePrintable(offset, row, f.cols, f.group, f.upper);
    ghost var text := Line(offset, row, f.cols, f.group, f.upper);
    var c := 12 + ((2 * f.group + 1) * f.cols - 1) / f.group + p;
    l[c] := '\n';
    l[c + 1] := '\0';
    assert l[..c + 1] == text;
    CStrIs(l[..], text);
    line := CStr(l[..]);
  }

  lemma BlankLine(f: Layout, l: seq<char>, offset: nat)
    requires f.Valid() && |l| == LINE_SIZE && l[..9] == Address(offset) + ":"
    requires forall i :: 9 <= i < |l| ==> l[i] == ' '
    ensures Holds(f, l, offset, [])
  {
    hide Holds, LineSoFar, AsciiColumn, HexArea;
    var col := AsciiColumn(f.cols, f.group);
    LineFits(f);
    HexAreaLength([], f.group, f.upper);
    LineSoFarIs(f, offset, []);
    HoldsIff(f, l, offset, []);
    assert l[..col] == l[..9] + l[9..col];
    assert l[9..col] == Blanks(col - 9);
  }

  method StartLine(f: Layout, l: array<char>, offset: nat)
    requires f.Valid() && l.Length == LINE_SIZE
    modifies l
    ensures Holds(f, l[..], offset, [])
  {
    hide Holds, Address;
    var address := Address(offset);
    forall i | 0 <= i < 8 { l[i] := address[i]; }
    l[8] := ':';
    for c := 9 to LINE_SIZE
      invariant l[..9] == address + ":"
      invariant forall i :: 9 <= i < c ==> l[i] == ' '
    {
      l[c] := ' ';
    }
    BlankLine(f, l[..], offset);
  }

  /** Writes the two digits and the ASCII cell of byte number p of a line. */
  method LayByte(f: Layout, l: array<char>, ghost offset: nat, ghost row: seq<byte>, p: nat, e: byte)
    requires Holds(f, l[..], offset, row) && p == |row| < f.cols
    modifies l
    ensures Holds(f, l[..], offset, row + [e])
  {
    hide *;
    ghost var sep := HexAreaGrows(f, row, e);
    PutByte(f, l[..], offset, row, e, sep);
    ColumnArithmetic(f.group, p);
    AsciiStart(f);
    var grplen := f.group + f.group + 1;
    var c := 10 + (grplen * p) / f.group;
    var d := 12 + (grplen * f.cols - 1) / f.group + p;
    ghost var was := l[..];
    assert c + 1 < d < |was|;
    l[c] := HexDigit(e / 16, f.upper);
    c := c + 1;
    l[c] := HexDigit(e % 16, f.upper);
    l[d] := AsciiCell(e);
    assert l[..] == was[c - 1 := HexDigit(e / 16, f.upper)][c := HexDigit(e % 16, f.upper)][d := AsciiCell(e)];
  }

  /** Ends a full line and hands it to xxdline. */
  method PrintFullLine(f: Layout, fp: LinePrinter, l: array<char>, ghost bytes: seq<byte>, ghost start: nat,
                       nonzero: nat)
    requires start + f.cols <= |bytes| && Holds(f, l[..], start, bytes[start..start + f.cols])
    requires fp.Valid() && fp.fed == Rows(f, bytes, start)
    requires nonzero == 0 <==> AllZero(bytes[start..start + f.cols])
    modifies fp, l
    ensures fp.Valid() && fp.fed == Rows(f, bytes, start + f.cols)
    ensures fp.fed != [] && CStr(l[..]) == fp.fed[|fp.fed| - 1].text
  {
    hide *;
    FullRowIs(f, bytes, start);
    var line := EndLine(f, l, start, bytes[start..start + f.cols], f.cols);
    fp.XxdLine(line, if f.autoskip then nonzero else 1);
  }

  /** The dump loop of main for hextype HEX_NORMAL, with seekoff and displayoff 0. */
  method DumpNormal(f: Layout, bytes: seq<byte>) returns (text: string)
    requires f.Valid()
    ensures text == NormalDump(f, bytes)
  {
    hide *;
    BeforeFirstLine(f, bytes);
    var fp := new LinePrinter();
    var l := new char[LINE_SIZE](_ => '\0');
    var n, p, nonzero := 0, 0, 0;
    ghost var start, row: seq<byte> := 0, [];
    while n < |bytes|
      invariant start + p == n <= |bytes| && |row| == p < f.cols
      invariant LineStart(f.cols, start) && row == bytes[start..n]
      invariant fp.Valid() && fp.fed == Rows(f, bytes, start)
      invariant p > 0 ==> Holds(f, l[..], start, row)
      invariant p == 0 && n > 0 ==> fp.fed != [] && CStr(l[..]) == fp.fed[|fp.fed| - 1].text
      invariant nonzero >= 0 && (nonzero == 0 <==> AllZero(row))
    {
      var e := bytes[n];
      if p == 0 {
        StartLine(f, l, n);
      }
      LayByte(f, l, start, row, p, e);
      if e != 0 { nonzero := nonzero + 1; }
      AllZeroExtend(row, e);
      SliceExtend(bytes, start, n);
      n := n + 1;
      p := p + 1;
      row := row + [e];
      if p == f.cols {
        PrintFullLine(f, fp, l, bytes, start, nonzero);
        NextLineStart(f, start);
        start, row := n, [];
        nonzero := 0;
        p := 0;
      }
    }
    assert row == bytes[start..];
    AfterLastLine(f, bytes, start, row);
    if p > 0 {
      var line := EndLine(f, l, start, row, p);
      fp.XxdLine(line, 1);
      assert fp.fed == Rows(f, bytes, start) + [PartialRow(f, start, row)] by { PartialRowIs(f, start, row); }
    } else if f.autoskip {
      if n == 0 { assert fp.fed == []; }
      fp.XxdLine(CStr(l[..]), -1);
    }
    text := fp.out;
  }

  lemma SliceExtend(bytes: seq<byte>, start: nat, n: nat)
    requires start <= n < |bytes|
    ensures bytes[start..n] + [bytes[n]] == bytes[start..n + 1]
  {
  }

  lemma AllZeroExtend(row: seq<byte>, e: byte)
    ensures AllZero(row + [e]) <==> AllZero(row) && e == 0
  {
    if AllZero(row + [e]) {
      assert (row + [e])[|row|] == 0;
      forall i | 0 <= i < |row| ensures row[i] == 0 {
        assert (row + [e])[i] == 0;
      }
    }
  }

  // ---- the PostScript dump ----

  lemma PlainStep(bytes: seq<byte>, n: nat, cols: nat, upper: bool, first: nat)
    requires n < |bytes| && first < cols
    ensures PlainFrom(bytes[n..], cols, upper, first)
         == BytePair(bytes[n], upper)
            + (if first + 1 == cols then "\n" + PlainFrom(bytes[n + 1..], cols, upper, 0)
               else PlainFrom(bytes[n + 1..], cols, upper, first + 1))
  {
    assert bytes[n..][1..] == bytes[n + 1..];
  }

  lemma PlainEnd(cols: nat, upper: bool, first: nat)
    requires first < cols
    ensures PlainFrom([], cols, upper, first) == if first > 0 then "\n" else ""
  {
  }

  /** The loop of main for hextype HEX_POSTSCRIPT. */
  method DumpPostscript(bytes: seq<byte>, cols: nat, upper: bool) returns (text: string)
    requires cols >= 1
    ensures text == PlainDump(bytes, cols, upper)
  {
    hide PlainFrom, HexDigit;
    var p, n := cols, 0;
    text := "";
    while n < |bytes|
      invariant n <= |bytes| && 0 < p <= cols
      invariant PlainDump(bytes, cols, upper) == text + PlainFrom(bytes[n..], cols, upper, cols - p)
    {
      var e := bytes[n];
      PlainStep(bytes, n, cols, upper, cols - p);
      ghost var was := text;
      text := text + [HexDigit(e / 16, upper)] + [HexDigit(e % 16, upper)];
      assert text == was + BytePair(e, upper);
      n := n + 1;
      p := p - 1;
      if p == 0 {
        text := text + "\n";
        p := cols;
      }
    }
    assert bytes[n..] == [];
    PlainEnd(cols, upper, cols - p);
    if p < cols { text := text + "\n"; }
  }
}
