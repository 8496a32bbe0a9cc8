/** xxd -r as a patcher (external/xxd/xxd.c): the lines of a dump may come in any order, and each
    one overwrites what the file holds at its address. */
module XxdPatch {
  import opened Bytes
  import opened XxdFormat
  import opened XxdDump
  import opened XxdRevert
  import opened XxdRoundTrip
  import CText

  datatype Patch = Patch(offset: nat, row: seq<byte>)

  function Printed(f: Layout, patches: seq<Patch>): string
    requires f.Valid() && forall p <- patches :: |p.row| <= f.cols
  {
    if patches == [] then ""
    else
      var last := patches[|patches| - 1];
      Printed(f, patches[..|patches| - 1]) + Line(last.offset, last.row, f.cols, f.group, f.upper)
  }

  /** Full lines, but for the last one. */
  predicate Lines(f: Layout, patches: seq<Patch>) {
    && (forall k :: 0 <= k < |patches| ==> patches[k].offset < 0x1_0000_0000 && 0 < |patches[k].row| <= f.cols)
    && (forall k :: 0 <= k < |patches| - 1 ==> |patches[k].row| == f.cols)
  }

  /** No line starts before the beginning of the file, and on a pipe none in front of the end of
      the one before. */
  predicate Reachable(mode: Mode, patches: seq<Patch>) {
    && (forall k :: 0 <= k < |patches| ==> mode.base + patches[k].offset >= 0)
    && (mode.seekable
        || forall k :: 0 < k < |patches| ==> patches[k].offset >= patches[k - 1].offset + |patches[k - 1].row|)
  }

  /** The file after all patches, in their order. */
  function Applied(data: seq<byte>, base: int, patches: seq<Patch>): seq<byte>
    requires forall k :: 0 <= k < |patches| ==> base + patches[k].offset >= 0
  {
    if patches == [] then data
    else
      var last := patches[|patches| - 1];
      Placed(Applied(data, base, patches[..|patches| - 1]), base + last.offset, last.row)
  }

  lemma {:induction false} AppliedEnd(mode: Mode, f: Layout, patches: seq<Patch>)
    requires patches != [] && Lines(f, patches) && Reachable(mode, patches) && !mode.seekable
    ensures var last := patches[|patches| - 1];
      |Applied([], mode.base, patches)| == mode.base + last.offset + |last.row|
  {
    var q := |patches| - 1;
    var before := patches[..q];
    if q > 0 {
      AppliedEnd(mode, f, before);
      assert before[q - 1] == patches[q - 1];
    }
    PlacedLength(Applied([], mode.base, before), mode.base + patches[q].offset, patches[q].row);
  }

  /** A line whose address the output cannot reach ends the program. */
  lemma ReadUnreachable(mode: Mode, st: Scan, offset: nat, row: seq<byte>, f: Layout)
    requires Normal(mode) && AtLineStart(mode, st) && mode.cols == f.cols
    requires f.Valid() && 0 < |row| <= f.cols && offset < 0x1_0000_0000
    requires mode.base + offset < 0 || (!mode.seekable && mode.base + offset < |st.data|)
    ensures Run(mode, st, Line(offset, row, f.cols, f.group, f.upper)).failed
  {
    hide *;
    var hex := HexArea(row, f.group, f.upper);
    LineSoFarIs(f, offset, row);
    var gap := Blanks(AsciiColumn(f.cols, f.group) - 9 - |hex|);
    LineParts(f, offset, row, gap);
    var rest := hex + (gap + Ascii(row) + "\n");
    HexAreaStart(row, f.group, f.upper);
    AddressRead(offset);
    ReadNumber(mode, st, Address(offset));
    var s1 := Run(mode, st, Address(offset));
    RunAppend(mode, st, Address(offset), ":");
    RunOne(mode, s1, ':');
    var s2 := Step(mode, s1, ':');
    FirstBlankFails(mode, st, s1);
    RunAppend(mode, st, Address(offset) + ":", rest);
    assert rest[0] == ' ';
    RunFirst(mode, s2, rest);
    RunFailed(mode, Step(mode, s2, ' '), rest[1..]);
  }

  lemma RunFirst(mode: Mode, st: Scan, text: string)
    requires st.Valid() && text != ""
    ensures Run(mode, st, text) == Run(mode, Step(mode, st, text[0]), text[1..])
  {
  }

  lemma {:induction false} HexAreaStart(row: seq<byte>, g: nat, upper: bool)
    requires g > 0 && row != []
    ensures HexArea(row, g, upper) != "" && HexArea(row, g, upper)[0] == ' '
  {
    var q := |row| - 1;
    if q > 0 {
      HexAreaStart(row[..q], g, upper);
    } else {
      assert row[..q] == [];
    }
  }

  /** Behind the address the automaton expects the first byte, at a place it has not moved to. */
  lemma FirstBlankFails(mode: Mode, from: Scan, st: Scan)
    requires Normal(mode) && AtLineStart(mode, from) && InAddress(mode, st, from)
    requires mode.base + st.want < 0 || (!mode.seekable && mode.base + st.want < |from.data|)
    ensures Step(mode, Step(mode, st, ':'), ' ').failed
  {
  }

  lemma {:induction false} ReadPatches(mode: Mode, f: Layout, data: seq<byte>, patches: seq<Patch>)
    requires Normal(mode) && mode.cols == f.cols && f.Valid() && Lines(f, patches)
    requires mode.seekable || data == []
    ensures var r := Run(mode, Start(mode, data), Printed(f, patches));
      && r.failed == !Reachable(mode, patches)
      && (Reachable(mode, patches) ==> r.data == Applied(data, mode.base, patches))
      && (Reachable(mode, patches) && (patches == [] || |patches[|patches| - 1].row| == f.cols)
          ==> AtLineStart(mode, r))
  {
    hide Run, Line, Applied, Placed;
    var start := Start(mode, data);
    if patches == [] {
      RunNothing(mode, start);
      AppliedNothing(data, mode.base);
    } else {
      var q := |patches| - 1;
      var before, last := patches[..q], patches[q];
      ReadPatches(mode, f, data, before);
      var st := Run(mode, start, Printed(f, before));
      var line := Line(last.offset, last.row, f.cols, f.group, f.upper);
      RunAppend(mode, start, Printed(f, before), line);
      if !Reachable(mode, before) {
        RunFailed(mode, st, line);
        StillUnreachable(mode, patches);
      } else {
        LastReachable(mode, f, data, patches);
        if Reachable(mode, patches) {
          AppliedStep(data, mode.base, patches);
          ReadLine(mode, st, last.offset, last.row, f);
        } else {
          ReadUnreachable(mode, st, last.offset, last.row, f);
        }
      }
    }
  }

  lemma AppliedNothing(data: seq<byte>, base: int)
    ensures Applied(data, base, []) == data
  {
  }

  lemma AppliedStep(data: seq<byte>, base: int, patches: seq<Patch>)
    requires patches != [] && forall k :: 0 <= k < |patches| ==> base + patches[k].offset >= 0
    ensures var last := patches[|patches| - 1];
      Applied(data, base, patches)
      == Placed(Applied(data, base, patches[..|patches| - 1]), base + last.offset, last.row)
  {
  }

  lemma StillUnreachable(mode: Mode, patches: seq<Patch>)
    requires patches != []
    ensures Reachable(mode, patches) ==> Reachable(mode, patches[..|patches| - 1])
  {
    var before := patches[..|patches| - 1];
    assert forall k :: 0 <= k < |before| ==> before[k] == patches[k];
  }

  /** Whether the output can move to the last line, when it reached the ones before. */
  lemma LastReachable(mode: Mode, f: Layout, data: seq<byte>, patches: seq<Patch>)
    requires patches != [] && Lines(f, patches) && (mode.seekable || data == [])
    requires Reachable(mode, patches[..|patches| - 1])
    ensures var at := mode.base + patches[|patches| - 1].offset;
      Reachable(mode, patches)
      <==> at >= 0 && (mode.seekable || |Applied(data, mode.base, patches[..|patches| - 1])| <= at)
  {
    var q := |patches| - 1;
    var before := patches[..q];
    assert forall k :: 0 <= k < q ==> before[k] == patches[k];
    if q > 0 && !mode.seekable {
      AppliedEnd(mode, f, before);
    }
  }

  /** Reverting printed lines in any order patches the file: every row lands at its address, later
      rows over earlier ones, and the rest of the file stays. A pipe is filled up with zero bytes
      instead; it fails exactly when a line starts in front of the end of the one before it, and
      any output fails exactly when a line would start before the beginning of the file. */
  lemma PatchesRead(f: Layout, data: seq<byte>, patches: seq<Patch>, base: int, seekable: bool)
    requires f.Valid() && Lines(f, patches) && (seekable || data == [])
    ensures var mode := Mode(f.cols, false, base, seekable);
      RevertInto(mode, data, Printed(f, patches))
      == if Reachable(mode, patches) then CText.Some(Applied(data, base, patches)) else CText.None
  {
    hide Run, Printed, Reachable, Applied, Start;
    ReadPatches(Mode(f.cols, false, base, seekable), f, data, patches);
  }

  // ---- a partial line in front of another one ----

  /** The column is reset only behind a full line. So a second line behind a partial one does not
      patch its place: here, with two columns, the first two digits of its address are written to
      the beginning of the file, and the rest of the line is dropped. */
  lemma PartialLineSpoils(f: Layout, first: Patch, second: Patch)
    requires f.Valid() && f.cols == 2 && |first.row| == 1 && 0 < |second.row| <= 2
    requires first.offset < 0x1_0000_0000 && second.offset < 0x1_0000_0000
    ensures RevertInto(Mode(2, false, 0, true), [], Printed(f, [first, second]))
         == CText.Some(Placed(Placed([], first.offset, first.row), 0, [second.offset / 0x100_0000]))
  {
    hide *;
    var mode := Mode(2, false, 0, true);
    var start := Start(mode, []);
    var line1 := Line(first.offset, first.row, f.cols, f.group, f.upper);
    var line2 := Line(second.offset, second.row, f.cols, f.group, f.upper);
    TwoPrinted(f, first, second);
    AtStart(mode);
    ReadLine(mode, start, first.offset, first.row, f);
    var st := Run(mode, start, line1);
    RunAppend(mode, start, line1, line2);
    var tail := SecondLine(f, second);
    var pair := BytePair(second.offset / 0x100_0000, false);
    AddressAsData(mode, st, second.offset / 0x100_0000);
    RunAppend(mode, st, pair, tail + "\n");
    var done := Run(mode, st, pair);
    SkipToNextLine(mode, done, tail, Placed(st.data, 0, [second.offset / 0x100_0000]));
    LineDoneData(mode, done, Placed(st.data, 0, [second.offset / 0x100_0000]));
    RevertIs(mode, Printed(f, [first, second]));
  }

  lemma AtStart(mode: Mode)
    requires mode.cols >= 1 && !mode.postscript
    ensures Normal(mode) && AtLineStart(mode, Start(mode, [])) && Start(mode, []).data == []
  {
  }

  lemma RevertIs(mode: Mode, text: string)
    ensures var end := Run(mode, Start(mode, []), text);
      RevertInto(mode, [], text) == if end.failed then CText.None else CText.Some(end.data)
  {
  }

  lemma TwoPrinted(f: Layout, first: Patch, second: Patch)
    requires f.Valid() && |first.row| <= f.cols && |second.row| <= f.cols
    ensures Printed(f, [first, second])
         == Line(first.offset, first.row, f.cols, f.group, f.upper)
            + Line(second.offset, second.row, f.cols, f.group, f.upper)
  {
    hide Line;
    assert [first, second][..1] == [first];
    assert [first][..0] == [];
    assert Printed(f, [first]) == "" + Line(first.offset, first.row, f.cols, f.group, f.upper);
  }

  /** The line of a patch behind the first two digits of its address. */
  lemma SecondLine(f: Layout, p: Patch) returns (tail: string)
    requires f.Valid() && 0 < |p.row| <= f.cols && p.offset < 0x1_0000_0000
    ensures '\n' !in tail
    ensures Line(p.offset, p.row, f.cols, f.group, f.upper)
         == BytePair(p.offset / 0x100_0000, false) + (tail + "\n")
  {
    hide LineSoFar, Digits, HexDigit;
    var line := LineSoFar(p.offset, p.row, f.cols, f.group, f.upper);
    LinePrintable(p.offset, p.row, f.cols, f.group, f.upper);
    LineSoFarIs(f, p.offset, p.row);
    tail := line[2..];
    AddressStart(p.offset);
    assert line[..2] == Address(p.offset)[..2];
    assert line == line[..2] + tail;
    assert line[..2] + tail + "\n" == line[..2] + (tail + "\n");
  }

  lemma AddressStart(offset: nat)
    requires offset < 0x1_0000_0000
    ensures Address(offset)[..2] == BytePair(offset / 0x100_0000, false)
  {
    hide HexDigit, Digits;
    FirstTwo(offset, 8);
    FirstTwo(offset / 0x10, 7);
    FirstTwo(offset / 0x100, 6);
    FirstTwo(offset / 0x1000, 5);
    FirstTwo(offset / 0x1_0000, 4);
    FirstTwo(offset / 0x10_0000, 3);
    TwoDigits(offset / 0x100_0000);
  }

  lemma FirstTwo(a: nat, n: nat)
    requires n >= 3
    ensures Digits(a, n)[..2] == Digits(a / 16, n - 1)[..2]
  {
    hide HexDigit;
  }

  lemma TwoDigits(a: nat)
    requires a < 0x100
    ensures Digits(a, 2)[..2] == BytePair(a, false)
  {
    hide HexDigit;
    assert Digits(a / 16, 1) == Digits(a / 16 / 16, 0) + [HexDigit(a / 16 % 16, false)];
  }

  lemma AddressAsData(mode: Mode, st: Scan, b: byte)
    requires mode == Mode(2, false, 0, true) && PartDone(mode, st, 1)
    ensures var r := Run(mode, st, BytePair(b, false));
      LineDone(mode, r, Placed(st.data, 0, [b]))
  {
    hide *;
    PairIs(b, false);
    DigitRoundTrip(b / 16, false);
    DigitRoundTrip(b % 16, false);
    RunPair(mode, st, "", HexDigit(b / 16, false), HexDigit(b % 16, false));
    assert "" + BytePair(b, false) == BytePair(b, false);
    DataByte(mode, st, HexDigit(b / 16, false), HexDigit(b % 16, false), b);
  }

  lemma DataByte(mode: Mode, st: Scan, c: char, d: char, b: byte)
    requires mode == Mode(2, false, 0, true) && PartDone(mode, st, 1)
    requires DigitValue(c) == b / 16 && DigitValue(d) == b % 16
    ensures LineDone(mode, Step(mode, Step(mode, st, c), d), Placed(st.data, 0, [b]))
  {
    hide DigitValue, Placed, ZeroFill, PutAt;
    DigitIsKept(mode, c);
    DigitIsKept(mode, d);
    PutInBody(st.data, st.data, 0, [], b);
    assert [] + [b] == [b];
  }

  // ---- line ends ----

  function WithoutCR(text: string): string {
    if text == "" then "" else (if text[0] == '\r' then "" else [text[0]]) + WithoutCR(text[1..])
  }

  /** Carriage returns never count, in either format: a dump with CRLF line ends is read like one
      without. */
  lemma {:induction false} CarriageReturnsIgnored(mode: Mode, st: Scan, text: string)
    requires st.Valid()
    ensures Run(mode, st, text) == Run(mode, st, WithoutCR(text))
    decreases |text|
  {
    hide Step;
    if text != "" {
      StepCR(mode, st);
      CarriageReturnsIgnored(mode, Step(mode, st, text[0]), text[1..]);
      if text[0] == '\r' {
        assert WithoutCR(text) == WithoutCR(text[1..]);
      } else {
        assert WithoutCR(text)[0] == text[0] && WithoutCR(text)[1..] == WithoutCR(text[1..]);
      }
    }
  }

  lemma StepCR(mode: Mode, st: Scan)
    requires st.Valid()
    ensures Step(mode, st, '\r') == st
  {
  }
}
