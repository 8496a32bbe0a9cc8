/** huntype undoes the dump loops of external/xxd/xxd.c: the lemmas here read the text of a dump
    through the automaton of XxdRevert, line by line. */
module XxdRoundTrip {
  import opened Bytes
  import opened XxdFormat
  import opened XxdDump
  import opened XxdRevert
  import CText

  // ---- numbers ----

  function Accumulate(want: nat, digits: string): int
    requires forall c <- digits :: DigitValue(c) >= 0
  {
    if digits == "" then want
    else 16 * Accumulate(want, digits[..|digits| - 1]) + DigitValue(digits[|digits| - 1])
  }

  function Pow16(n: nat): nat {
    if n == 0 then 1 else 16 * Pow16(n - 1)
  }

  lemma {:induction false} DigitsRead(a: nat, n: nat)
    requires a < Pow16(n)
    ensures forall c <- Digits(a, n) :: DigitValue(c) >= 0
    ensures Accumulate(0, Digits(a, n)) == a
  {
    if n > 0 {
      DigitsRead(a / 16, n - 1);
      DigitRoundTrip(a % 16, false);
    }
  }

  lemma AddressRead(offset: nat)
    requires offset < 0x1_0000_0000
    ensures forall c <- Address(offset) :: DigitValue(c) >= 0
    ensures Accumulate(0, Address(offset)) == offset
  {
    hide Digits, Accumulate, DigitValue, Pow16;
    EightDigits();
    DigitsRead(offset, 8);
  }

  lemma EightDigits()
    ensures Pow16(8) == 0x1_0000_0000
  {
    assert Pow16(2) == 0x100;
    assert Pow16(4) == 0x1_0000;
    assert Pow16(6) == 0x100_0000;
  }

  // ---- pieces of a line ----

  ghost predicate Normal(mode: Mode)
    ensures Normal(mode) ==> mode.cols >= 1
  {
    mode.cols >= 1 && !mode.postscript
  }

  /** Between two lines. */
  ghost predicate AtLineStart(mode: Mode, st: Scan)
    ensures AtLineStart(mode, st) ==> st.Valid()
  {
    && st.Valid() && st.ignoreGarbage && st.p == mode.cols && st.want == 0
    && (mode.seekable || st.have == |st.data|) && !st.skipping && !st.failed
  }

  /** Inside the address field. */
  ghost predicate InAddress(mode: Mode, st: Scan, from: Scan) {
    && st.Valid() && st.n1 >= 0
    && st == from.(n1 := st.n1, n2 := st.n2, want := st.want, ignoreGarbage := false)
  }

  lemma {:induction false} ReadNumber(mode: Mode, st: Scan, digits: string)
    requires Normal(mode) && AtLineStart(mode, st)
    requires digits != "" && forall c <- digits :: DigitValue(c) >= 0
    ensures var r := Run(mode, st, digits);
      InAddress(mode, r, st) && r.want == Accumulate(0, digits)
  {
    var q := |digits| - 1;
    var init, last := digits[..q], digits[q];
    assert digits == init + [last];
    RunAppend(mode, st, init, [last]);
    RunOne(mode, Run(mode, st, init), last);
    if q > 0 {
      ReadNumber(mode, st, init);
    }
    DigitIsKept(mode, last);
  }

  lemma DigitIsKept(mode: Mode, c: char)
    requires DigitValue(c) >= 0
    ensures !Ignored(mode, c) && c != ' '
  {
  }

  lemma RunOne(mode: Mode, st: Scan, c: char)
    requires st.Valid()
    ensures Run(mode, st, [c]) == Step(mode, st, c)
  {
    assert [c][1..] == [];
  }

  /** The contents of a file after row was written at offset `at`. */
  function Placed(before: seq<byte>, at: nat, row: seq<byte>): (r: seq<byte>)
    ensures |r| >= at + |row|
  {
    seq(if |before| > at + |row| then |before| else at + |row|,
        i requires 0 <= i => if at <= i < at + |row| then row[i - at] else if i < |before| then before[i] else 0)
  }

  lemma PlacedBehind(before: seq<byte>, at: nat, row: seq<byte>)
    requires |before| <= at
    ensures Placed(before, at, row) == before + Zeros(at - |before|) + row
  {
  }

  /** Behind the first q bytes of a line for file offset `at`; before the first byte the position
      may or may not have been moved already. */
  ghost predicate InBody(mode: Mode, st: Scan, before: seq<byte>, at: nat, row: seq<byte>)
    ensures InBody(mode, st, before, at, row) ==> st.Valid()
  {
    && st.Valid() && !st.ignoreGarbage && !st.skipping && !st.failed
    && st.p == |row| < mode.cols && mode.base + st.want == at + |row| && (mode.seekable || |before| <= at)
    && ((row == [] && st.data == before && (mode.seekable || st.have == |before|))
        || (st.have == at + |row| && st.data == Placed(before, at, row)))
  }

  /** Behind the last byte of a line: the rest is dropped. */
  ghost predicate LineDone(mode: Mode, st: Scan, data: seq<byte>)
    ensures LineDone(mode, st, data) ==> st.Valid()
  {
    && st.Valid() && st.ignoreGarbage && st.skipping && !st.failed && st.want == 0
    && st.data == data && (mode.seekable || st.have == |data|)
  }

  lemma SyncInBody(mode: Mode, st: Scan, before: seq<byte>, at: nat, row: seq<byte>)
    requires Normal(mode) && InBody(mode, st, before, at, row)
    ensures var r := Sync(mode, st);
      && InBody(mode, r, before, at, row) && r.have == at + |row| && r.n1 == st.n1 && r.n2 == st.n2
  {
    if mode.base + st.want != st.have {
      if !mode.seekable {
        ZeroFillAtEnd(before, at);
        PlacedBehind(before, at, []);
        assert before + Zeros(at - |before|) + [] == before + Zeros(at - |before|);
      }
    }
  }

  lemma ReadBlank(mode: Mode, st: Scan, before: seq<byte>, at: nat, row: seq<byte>)
    requires Normal(mode) && InBody(mode, st, before, at, row) && st.n1 == -1 && st.n2 >= 0
    ensures var r := Step(mode, st, ' ');
      InBody(mode, r, before, at, row) && r.n1 == -1 && r.n2 == -1
  {
    SyncInBody(mode, st.(n1 := -1, n2 := -1), before, at, row);
  }

  lemma ReadHighDigit(mode: Mode, st: Scan, before: seq<byte>, at: nat, row: seq<byte>, c: char)
    requires Normal(mode) && InBody(mode, st, before, at, row) && st.n1 == -1 && DigitValue(c) >= 0
    ensures var r := Step(mode, st, c);
      InBody(mode, r, before, at, row) && r.n1 == DigitValue(c) && r.n2 == -1
  {
    DigitIsKept(mode, c);
    SyncInBody(mode, st.(n1 := DigitValue(c), n2 := -1), before, at, row);
  }

  lemma ReadLowDigit(mode: Mode, st: Scan, before: seq<byte>, at: nat, row: seq<byte>, c: char)
    requires Normal(mode) && InBody(mode, st, before, at, row) && st.n1 >= 0 && DigitValue(c) >= 0
    ensures var r := Step(mode, st, c);
      var more := row + [16 * st.n1 + DigitValue(c)];
      if |more| == mode.cols then LineDone(mode, r, Placed(before, at, more)) && r.p == mode.cols
      else InBody(mode, r, before, at, more) && r.n1 == -1 && r.n2 >= 0
  {
    hide Placed, PutAt, DigitValue, ZeroFill;
    DigitIsKept(mode, c);
    var b: byte := 16 * st.n1 + DigitValue(c);
    var seen := st.(n1 := DigitValue(c), n2 := st.n1);
    SyncInBody(mode, seen, before, at, row);
    var synced := Sync(mode, seen);
    PutInBody(synced.data, before, at, row, b);
    PlacedLength(before, at, row + [b]);
  }

  lemma PutInBody(data: seq<byte>, before: seq<byte>, at: nat, row: seq<byte>, b: byte)
    requires data == Placed(before, at, row) || (row == [] && data == before)
    ensures PutAt(data, at + |row|, b) == Placed(before, at, row + [b])
  {
    var put, goal := PutAt(data, at + |row|, b), Placed(before, at, row + [b]);
    forall i | 0 <= i < |goal|
      ensures i < |put| && put[i] == goal[i]
    {
    }
  }

  /** One more byte of the hexadecimal area. */
  lemma ReadByte(mode: Mode, st: Scan, before: seq<byte>, at: nat, row: seq<byte>, sep: string, e: byte, upper: bool)
    requires Normal(mode) && InBody(mode, st, before, at, row) && st.n1 == -1 && st.n2 >= 0
    requires sep == "" || sep == " "
    ensures var r := Run(mode, st, sep + BytePair(e, upper));
      if |row| + 1 == mode.cols then LineDone(mode, r, Placed(before, at, row + [e])) && r.p == mode.cols
      else InBody(mode, r, before, at, row + [e]) && r.n1 == -1 && r.n2 >= 0
  {
    hide *;
    var hi, lo := HexDigit(e / 16, upper), HexDigit(e % 16, upper);
    DigitRoundTrip(e / 16, upper);
    DigitRoundTrip(e % 16, upper);
    PairIs(e, upper);
    ReadBlank(mode, st, before, at, row);
    var s1 := if sep == "" then st else Step(mode, st, ' ');
    ReadHighDigit(mode, s1, before, at, row, hi);
    var s2 := Step(mode, s1, hi);
    ReadLowDigit(mode, s2, before, at, row, lo);
    RunPair(mode, st, sep, hi, lo);
  }

  lemma RunPair(mode: Mode, st: Scan, sep: string, hi: char, lo: char)
    requires st.Valid() && (sep == "" || sep == " ")
    ensures Run(mode, st, sep + [hi, lo])
         == Step(mode, Step(mode, if sep == "" then st else Step(mode, st, ' '), hi), lo)
  {
    hide *;
    var s1 := Run(mode, st, sep);
    RunAppend(mode, st, sep, [hi, lo]);
    RunAppend(mode, s1, [hi], [lo]);
    assert [hi] + [lo] == [hi, lo];
    RunOne(mode, s1, hi);
    RunOne(mode, Step(mode, s1, hi), lo);
    RunOne(mode, st, ' ');
    RunNothing(mode, st);
  }

  /** The hexadecimal area of a whole row. */
  lemma {:induction false} ReadHexArea(mode: Mode, st: Scan, before: seq<byte>, at: nat, row: seq<byte>, g: nat,
                                       upper: bool)
    requires Normal(mode) && g > 0 && |row| <= mode.cols
    requires InBody(mode, st, before, at, []) && st.n1 == -1 && st.n2 >= 0
    ensures var r := Run(mode, st, HexArea(row, g, upper));
      if |row| == mode.cols then LineDone(mode, r, Placed(before, at, row)) && r.p == mode.cols
      else InBody(mode, r, before, at, row) && r.n1 == -1 && r.n2 >= 0
    decreases |row|
  {
    hide *;
    HexAreaParts(row, g, upper);
    if row == [] {
      RunNothing(mode, st);
    } else {
      var q := |row| - 1;
      var sep := if q % g == 0 then " " else "";
      ReadHexArea(mode, st, before, at, row[..q], g, upper);
      RunAppend(mode, st, HexArea(row[..q], g, upper), sep + BytePair(row[q], upper));
      ReadByte(mode, Run(mode, st, HexArea(row[..q], g, upper)), before, at, row[..q], sep, row[q], upper);
    }
  }

  lemma {:induction false} HexAreaParts(row: seq<byte>, g: nat, upper: bool)
    requires g > 0
    ensures HexArea([], g, upper) == ""
    ensures row != [] ==> var q := |row| - 1;
      && row[..q] + [row[q]] == row
      && HexArea(row, g, upper)
         == HexArea(row[..q], g, upper) + ((if q % g == 0 then " " else "") + BytePair(row[q], upper))
  {
    if row != [] {
      var q := |row| - 1;
      Associate(HexArea(row[..q], g, upper), if q % g == 0 then " " else "", BytePair(row[q], upper));
    }
  }

  lemma Associate(a: string, b: string, c: string)
    ensures a + b + c == a + (b + c)
  {
  }

  lemma {:induction false} DropRest(mode: Mode, st: Scan, text: string)
    requires st.Valid() && st.skipping && !st.failed && '\n' !in text
    ensures Run(mode, st, text) == st
    decreases |text|
  {
    if text != "" {
      DropRest(mode, st, text[1..]);
    }
  }

  lemma LineParts(f: Layout, offset: nat, row: seq<byte>, gap: string)
    requires f.Valid() && 0 < |row| <= f.cols
    requires var hex := HexArea(row, f.group, f.upper);
      9 + |hex| <= AsciiColumn(f.cols, f.group) && gap == Blanks(AsciiColumn(f.cols, f.group) - 9 - |hex|)
    ensures Line(offset, row, f.cols, f.group, f.upper)
         == Address(offset) + ":" + (HexArea(row, f.group, f.upper) + (gap + Ascii(row) + "\n"))
    ensures |gap| >= 2 && gap[..2] == "  " && '\n' !in gap && '\n' !in Ascii(row)
  {
    hide LineSoFar, HexArea, AsciiColumn, Address;
    BlanksBeforeAscii(row, f.cols, f.group, f.upper);
    LineSoFarIs(f, offset, row);
    Reassociate(Address(offset) + ":", HexArea(row, f.group, f.upper), gap, Ascii(row), "\n");
  }

  lemma Reassociate(a: string, b: string, c: string, d: string, e: string)
    ensures a + b + c + d + e == a + (b + (c + d + e))
  {
  }

  /** The address field and its colon. */
  lemma ReadAddress(mode: Mode, st: Scan, offset: nat) returns (r: Scan)
    requires Normal(mode) && AtLineStart(mode, st)
    requires offset < 0x1_0000_0000 && mode.base + offset >= 0
    requires mode.seekable || |st.data| <= mode.base + offset
    ensures r == Run(mode, st, Address(offset) + ":")
    ensures InBody(mode, r, st.data, mode.base + offset, []) && r.n1 == -1 && r.n2 >= 0
  {
    hide Run, Address;
    AddressRead(offset);
    ReadNumber(mode, st, Address(offset));
    var s1 := Run(mode, st, Address(offset));
    RunAppend(mode, st, Address(offset), ":");
    RunOne(mode, s1, ':');
    r := Step(mode, s1, ':');
  }

  lemma SkipToNextLine(mode: Mode, st: Scan, rest: string, data: seq<byte>)
    requires LineDone(mode, st, data) && '\n' !in rest
    ensures var r := Run(mode, st, rest + "\n");
      r == st.(skipping := false)
  {
    hide Run;
    RunAppend(mode, st, rest, "\n");
    DropRest(mode, st, rest);
    RunOne(mode, st, '\n');
  }

  lemma SecondBlank(mode: Mode, st: Scan, before: seq<byte>, at: nat, row: seq<byte>)
    requires Normal(mode) && row != [] && InBody(mode, st, before, at, row) && st.n1 == -1 && st.n2 == -1
    ensures var r := Step(mode, st, ' ');
      LineDone(mode, r, Placed(before, at, row)) && r.p == |row| && r.n1 == -1
  {
    hide Placed;
    PlacedLength(before, at, row);
    SyncInBody(mode, st, before, at, row);
  }

  /** Behind a partial row two blanks end the line. */
  lemma ReadGap(mode: Mode, st: Scan, before: seq<byte>, at: nat, row: seq<byte>, gap: string, rest: string)
    requires Normal(mode) && row != [] && InBody(mode, st, before, at, row) && st.n1 == -1 && st.n2 >= 0
    requires |gap| >= 2 && gap[..2] == "  " && '\n' !in gap && '\n' !in rest
    ensures var r := Run(mode, st, gap + rest + "\n");
      r.data == Placed(before, at, row) && !r.failed && PartDone(mode, r, |row|)
  {
    hide *;
    ReadBlank(mode, st, before, at, row);
    var s1 := Step(mode, st, ' ');
    SecondBlank(mode, s1, before, at, row);
    var s2 := Step(mode, s1, ' ');
    RunPair(mode, st, "", ' ', ' ');
    assert "" + [' ', ' '] == "  ";
    var more := gap[2..] + rest;
    SplitGap(gap, rest);
    RunAppend(mode, st, "  ", more + "\n");
    SkipToNextLine(mode, s2, more, Placed(before, at, row));
    LineDoneData(mode, s2, Placed(before, at, row));
    PartIsDone(mode, s2, Placed(before, at, row));
  }

  /** Behind a partial line: the column is not reset, so what comes next counts as data. */
  ghost predicate PartDone(mode: Mode, st: Scan, column: nat)
    ensures PartDone(mode, st, column) ==> st.Valid()
  {
    && st.Valid() && st.ignoreGarbage && !st.skipping && !st.failed && st.want == 0 && st.p == column
    && st.n1 == -1
  }

  lemma PartIsDone(mode: Mode, st: Scan, data: seq<byte>)
    requires LineDone(mode, st, data) && st.p >= 0 && st.n1 == -1
    ensures PartDone(mode, st.(skipping := false), st.p)
  {
  }


  lemma SplitGap(gap: string, rest: string)
    requires |gap| >= 2 && gap[..2] == "  " && '\n' !in gap && '\n' !in rest
    ensures gap + rest + "\n" == "  " + (gap[2..] + rest + "\n") && '\n' !in gap[2..] + rest
  {
  }

  lemma LineDoneData(mode: Mode, st: Scan, data: seq<byte>)
    requires LineDone(mode, st, data)
    ensures st.data == data && !st.failed
  {
  }

  lemma PlacedLength(before: seq<byte>, at: nat, row: seq<byte>)
    ensures |before| <= at ==> |Placed(before, at, row)| == at + |row|
  {
  }

  /** Reading a line writes its row at its address: over what the file holds there, and behind zero
      bytes where the file is shorter. Only a full line leaves the automaton ready for another address. */
  lemma ReadLine(mode: Mode, st: Scan, offset: nat, row: seq<byte>, f: Layout)
    requires Normal(mode) && AtLineStart(mode, st) && mode.cols == f.cols
    requires f.Valid() && 0 < |row| <= f.cols
    requires offset < 0x1_0000_0000 && mode.base + offset >= 0
    requires mode.seekable || |st.data| <= mode.base + offset
    ensures var r := Run(mode, st, Line(offset, row, f.cols, f.group, f.upper));
      && r.data == Placed(st.data, mode.base + offset, row) && !r.failed
      && (if |row| == f.cols then AtLineStart(mode, r) else PartDone(mode, r, |row|))
  {
    hide *;
    var hex, rest, at := HexArea(row, f.group, f.upper), Ascii(row), mode.base + offset;
    LineSoFarIs(f, offset, row);
    var gap := Blanks(AsciiColumn(f.cols, f.group) - 9 - |hex|);
    LineParts(f, offset, row, gap);
    var s1 := ReadAddress(mode, st, offset);
    ReadHexArea(mode, s1, st.data, at, row, f.group, f.upper);
    var s2 := Run(mode, s1, hex);
    RunAppend(mode, st, Address(offset) + ":", hex + (gap + rest + "\n"));
    RunAppend(mode, s1, hex, gap + rest + "\n");
    if |row| == f.cols {
      SkipToNextLine(mode, s2, gap + rest, Placed(st.data, at, row));
      LineDoneEnds(mode, s2, Placed(st.data, at, row));
    } else {
      ReadGap(mode, s2, st.data, at, row, gap, rest);
    }
  }

  lemma LineDoneEnds(mode: Mode, st: Scan, data: seq<byte>)
    requires LineDone(mode, st, data) && st.p == mode.cols
    ensures AtLineStart(mode, st.(skipping := false)) && st.data == data && !st.failed
  {
  }

  // ---- whole dumps ----

  /** The file when the first n bytes are restored: they start at the base offset. */
  function Restored(mode: Mode, bytes: seq<byte>, n: nat): seq<byte>
    requires n <= |bytes| && mode.base >= 0
  {
    if n == 0 then [] else Zeros(mode.base) + bytes[..n]
  }

  /** Up to which offset the lines shown so far reach; the rest of `end` is zero lines. */
  function ShownEnd(f: Layout, bytes: seq<byte>, end: nat): (n: nat)
    requires f.Valid() && end <= |bytes|
    ensures n <= end
  {
    if end < f.cols then 0
    else
      var before := end - f.cols;
      if !FullRow(f, bytes, before).zero || ZeroRun(Rows(f, bytes, before)) == 0 then end
      else ShownEnd(f, bytes, before)
  }

  lemma ShownEndIs(f: Layout, bytes: seq<byte>, before: nat)
    requires f.Valid() && before + f.cols <= |bytes|
    ensures var end, row := before + f.cols, bytes[before..before + f.cols];
      var zero, k := f.autoskip && AllZero(row), ZeroRun(Rows(f, bytes, before));
      && ZeroRun(Rows(f, bytes, end)) == (if zero then k + 1 else 0)
      && ShownEnd(f, bytes, end) == if !zero || k == 0 then end else ShownEnd(f, bytes, before)
  {
    hide Line, Shown, ZeroRun;
    ShownExtend(Rows(f, bytes, before), FullRow(f, bytes, before));
  }

  lemma NothingShown(f: Layout, bytes: seq<byte>)
    requires f.Valid()
    ensures ShownEnd(f, bytes, 0) == 0 && ZeroRun(Rows(f, bytes, 0)) == 0 && AllZero([])
    ensures Shown(Rows(f, bytes, 0)) == ""
  {
  }

  lemma LineStartCases(cols: nat, end: nat)
    requires cols > 0 && LineStart(cols, end)
    ensures end == 0 || (end >= cols && LineStart(cols, end - cols))
  {
  }

  lemma {:induction false} HiddenIsZero(f: Layout, bytes: seq<byte>, end: nat)
    requires f.Valid() && LineStart(f.cols, end) && end <= |bytes|
    ensures AllZero(bytes[ShownEnd(f, bytes, end)..end])
    ensures !f.autoskip ==> ShownEnd(f, bytes, end) == end
    ensures var k := ZeroRun(Rows(f, bytes, end));
      && (k <= 1 ==> ShownEnd(f, bytes, end) == end)
      && (k == 2 ==> end >= f.cols && ShownEnd(f, bytes, end) == end - f.cols)
  {
    hide *;
    NothingShown(f, bytes);
    LineStartCases(f.cols, end);
    var n := ShownEnd(f, bytes, end);
    if n == end {
      assert bytes[n..end] == [];
    }
    if end > 0 {
      var before := end - f.cols;
      HiddenIsZero(f, bytes, before);
      ShownEndIs(f, bytes, before);
      if n < end {
        ZeroParts(bytes, n, before, end);
      }
    }
  }

  lemma ZeroParts(bytes: seq<byte>, a: nat, b: nat, c: nat)
    requires a <= b <= c <= |bytes| && AllZero(bytes[a..b]) && AllZero(bytes[b..c])
    ensures AllZero(bytes[a..c])
  {
    assert bytes[a..c] == bytes[a..b] + bytes[b..c];
  }

  /** The file holds the first n bytes and the automaton is between two lines. */
  ghost predicate RestoredTo(mode: Mode, st: Scan, bytes: seq<byte>, n: nat)
    requires mode.base >= 0
    ensures RestoredTo(mode, st, bytes, n) ==> st.Valid()
  {
    AtLineStart(mode, st) && n <= |bytes| && st.data == Restored(mode, bytes, n)
  }

  /** Showing the row at o after the first n bytes, when only zeros lie between, restores up to
      the end of that row. */
  lemma ReadRow(mode: Mode, st: Scan, f: Layout, bytes: seq<byte>, n: nat, o: nat, end: nat)
    requires Normal(mode) && mode.base >= 0 && f.Valid() && mode.cols == f.cols && |bytes| <= 0x1_0000_0000
    requires RestoredTo(mode, st, bytes, n) && n <= o < end <= |bytes| && end - o <= f.cols
    requires AllZero(bytes[n..o])
    ensures var r := Run(mode, st, Line(o, bytes[o..end], f.cols, f.group, f.upper));
      && r.data == Restored(mode, bytes, end) && !r.failed
      && (end - o == f.cols ==> RestoredTo(mode, r, bytes, end))
  {
    hide Run, Line;
    var row := bytes[o..end];
    ReadLine(mode, st, o, row, f);
    PlacedBehind(st.data, mode.base + o, row);
    var placed := Placed(st.data, mode.base + o, row);
    var goal := Zeros(mode.base) + bytes[..end];
    forall i | 0 <= i < |goal|
      ensures placed[i] == goal[i]
    {
      if mode.base + n <= i < mode.base + o {
        assert bytes[n..o][i - mode.base - n] == 0;
      }
    }
    assert placed == goal;
  }

  /** A star line is skipped like any other garbage in front of an address. */
  lemma ReadStar(mode: Mode, st: Scan)
    requires Normal(mode) && AtLineStart(mode, st)
    ensures var r := Run(mode, st, "*\n");
      AtLineStart(mode, r) && r.data == st.data
  {
    RunPair(mode, st, "", '*', '\n');
    assert "" + ['*', '\n'] == "*\n";
  }

  /** What is held back in front of the row at `end`. */
  lemma ReadPending(mode: Mode, st: Scan, f: Layout, bytes: seq<byte>, end: nat) returns (n: nat)
    requires Normal(mode) && mode.base >= 0 && f.Valid() && mode.cols == f.cols && |bytes| <= 0x1_0000_0000
    requires end <= |bytes| && LineStart(f.cols, end)
    requires RestoredTo(mode, st, bytes, ShownEnd(f, bytes, end))
    ensures n <= end && AllZero(bytes[n..end])
    ensures RestoredTo(mode, Run(mode, st, Pending(Rows(f, bytes, end))), bytes, n)
  {
    hide Run, Line, Rows, ShownEnd, Restored, ZeroRun, Shown, LineStart;
    HiddenIsZero(f, bytes, end);
    n := ShownEnd(f, bytes, end);
    var k := ZeroRun(Rows(f, bytes, end));
    if k == 2 {
      var before := end - f.cols;
      FullRowIs(f, bytes, before);
      assert bytes[before..before] == [];
      ReadRow(mode, st, f, bytes, n, before, end);
      n := end;
      assert bytes[end..end] == [];
    } else if k >= 3 {
      ReadStar(mode, st);
    } else {
      RunNothing(mode, st);
    }
  }

  /** Reading everything shown of the full rows. */
  lemma {:induction false} ReadShown(mode: Mode, f: Layout, bytes: seq<byte>, end: nat)
    requires Normal(mode) && mode.base >= 0 && f.Valid() && mode.cols == f.cols && |bytes| <= 0x1_0000_0000
    requires end <= |bytes| && LineStart(f.cols, end)
    ensures RestoredTo(mode, Run(mode, Start(mode, []), Shown(Rows(f, bytes, end))), bytes,
                       ShownEnd(f, bytes, end))
  {
    hide *;
    var start := Start(mode, []);
    NothingShown(f, bytes);
    LineStartCases(f.cols, end);
    if end == 0 {
      RunNothing(mode, start);
      StartRestored(mode, bytes);
    } else {
      var before := end - f.cols;
      ReadShown(mode, f, bytes, before);
      ShownEndIs(f, bytes, before);
      FullRowIs(f, bytes, before);
      var row := bytes[before..end];
      var line := Line(before, row, f.cols, f.group, f.upper);
      var fed := Fed(line, f.autoskip && AllZero(row));
      ShownExtend(Rows(f, bytes, before), fed);
      HiddenIsZero(f, bytes, before);
      if !fed.zero {
        ReadNextRow(mode, f, bytes, before, end);
      } else if ZeroRun(Rows(f, bytes, before)) == 0 {
        assert bytes[before..before] == [];
        var st := Run(mode, start, Shown(Rows(f, bytes, before)));
        RunAppend(mode, start, Shown(Rows(f, bytes, before)), line);
        ReadRow(mode, st, f, bytes, before, before, end);
      }
    }
  }

  lemma StartRestored(mode: Mode, bytes: seq<byte>)
    requires mode.base >= 0
    ensures RestoredTo(mode, Start(mode, []), bytes, 0)
  {
  }

  /** A row that has to be shown, behind what was held back. */
  lemma ReadNextRow(mode: Mode, f: Layout, bytes: seq<byte>, o: nat, end: nat)
    requires Normal(mode) && mode.base >= 0 && f.Valid() && mode.cols == f.cols && |bytes| <= 0x1_0000_0000
    requires o < end <= |bytes| && end - o <= f.cols && LineStart(f.cols, o)
    requires RestoredTo(mode, Run(mode, Start(mode, []), Shown(Rows(f, bytes, o))), bytes,
                        ShownEnd(f, bytes, o))
    ensures var rows := Rows(f, bytes, o);
      var text := Shown(rows) + Pending(rows) + Line(o, bytes[o..end], f.cols, f.group, f.upper);
      var r := Run(mode, Start(mode, []), text);
      && r.data == Restored(mode, bytes, end) && !r.failed
      && (end - o == f.cols ==> RestoredTo(mode, r, bytes, end))
  {
    hide *;
    var start, rows := Start(mode, []), Rows(f, bytes, o);
    var s1 := Run(mode, start, Shown(rows));
    var n := ReadPending(mode, s1, f, bytes, o);
    RunAppend(mode, start, Shown(rows), Pending(rows));
    var s2 := Run(mode, s1, Pending(rows));
    RunAppend(mode, start, Shown(rows) + Pending(rows), Line(o, bytes[o..end], f.cols, f.group, f.upper));
    ReadRow(mode, s2, f, bytes, n, o, end);
  }

  /** Reverting a normal dump with the same number of columns restores the bytes, whatever the
      group size, the case of the digits and the suppression of zero lines, and whether or not
      the output can seek. */
  lemma NormalRoundTrip(f: Layout, bytes: seq<byte>, base: nat, seekable: bool)
    requires f.Valid() && |bytes| <= 0x1_0000_0000
    ensures var mode := Mode(f.cols, false, base, seekable);
      Revert(mode, NormalDump(f, bytes)) == CText.Some(if bytes == [] then [] else Zeros(base) + bytes)
  {
    hide Run, Shown, Rows, Line, Closed, ShownEnd, Pending, LineStart, Start, FullPart;
    var mode := Mode(f.cols, false, base, seekable);
    var full := FullPart(f.cols, |bytes|);
    FullPartAligned(f.cols, |bytes|);
    ReadShown(mode, f, bytes, full);
    HiddenIsZero(f, bytes, full);
    assert bytes[..|bytes|] == bytes;
    var rest := bytes[full..];
    AfterLastLine(f, bytes, full, rest);
    if full < |bytes| {
      PartialRowIs(f, full, rest);
      ShownExtend(Rows(f, bytes, full), PartialRow(f, full, rest));
      ReadNextRow(mode, f, bytes, full, |bytes|);
    } else if f.autoskip {
      ReadClosed(mode, f, bytes);
    }
  }

  lemma {:induction false} FullPartAligned(cols: nat, n: nat)
    requires cols > 0
    ensures LineStart(cols, FullPart(cols, n))
  {
    if n >= cols { FullPartAligned(cols, n - cols); }
  }

  /** The flush at the end shows the last row in any case. */
  lemma ReadClosed(mode: Mode, f: Layout, bytes: seq<byte>)
    requires Normal(mode) && mode.base >= 0 && f.Valid() && mode.cols == f.cols && |bytes| <= 0x1_0000_0000
    requires LineStart(f.cols, |bytes|)
    ensures var r := Run(mode, Start(mode, []), Shown(Closed(Rows(f, bytes, |bytes|))));
      r.data == Restored(mode, bytes, |bytes|) && !r.failed
  {
    hide *;
    LineStartCases(f.cols, |bytes|);
    NothingShown(f, bytes);
    ClosedNothing();
    if bytes == [] {
      BeforeFirstLine(f, bytes);
      ReadShown(mode, f, bytes, 0);
      RestoredIs(mode, Run(mode, Start(mode, []), Shown([])), bytes, 0);
    } else {
      var before := |bytes| - f.cols;
      var row := bytes[before..|bytes|];
      ReadShown(mode, f, bytes, before);
      FullRowIs(f, bytes, before);
      var line := Line(before, row, f.cols, f.group, f.upper);
      ClosedIs(Rows(f, bytes, before), Fed(line, f.autoskip && AllZero(row)));
      ShownExtend(Rows(f, bytes, before), Fed(line, false));
      ReadNextRow(mode, f, bytes, before, |bytes|);
    }
  }

  lemma ClosedNothing()
    ensures Closed([]) == []
  {
  }

  lemma ClosedIs(rows: seq<Fed>, last: Fed)
    ensures Closed(rows + [last]) == rows + [last.(zero := false)]
  {
    assert (rows + [last])[..|rows|] == rows;
  }

  lemma RestoredIs(mode: Mode, st: Scan, bytes: seq<byte>, n: nat)
    requires mode.base >= 0 && RestoredTo(mode, st, bytes, n)
    ensures st.data == Restored(mode, bytes, n) && !st.failed
  {
  }
}
