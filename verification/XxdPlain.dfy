/** huntype on PostScript text (external/xxd/xxd.c): blanks, tabs and line breaks may stand anywhere
    between the digits, and two adjacent garbage characters end the data of a line. */
module XxdPlain {
  import opened Bytes
  import opened XxdFormat
  import opened XxdDump
  import opened XxdRevert
  import opened XxdRoundTrip
  import CText

  // ---- the PostScript dump ----

  /** The bytes of row were restored behind the base offset, whatever column the automaton is in. */
  ghost predicate InPlain(mode: Mode, st: Scan, row: seq<byte>)
    requires mode.base >= 0
    ensures InPlain(mode, st, row) ==> st.Valid()
  {
    && st.Valid() && !st.skipping && !st.failed && st.want == |row|
    && (if row == [] then
          || (st.data == [] && (st.have == 0 || st.have == mode.base))
          || (st.data == Placed([], mode.base, []) && st.have == mode.base)
        else st.have == mode.base + |row| && st.data == Placed([], mode.base, row))
  }

  lemma SyncInPlain(mode: Mode, st: Scan, row: seq<byte>)
    requires mode.base >= 0 && InPlain(mode, st, row)
    ensures InPlain(mode, Sync(mode, st), row) && Sync(mode, st).have == mode.base + |row|
  {
    ZeroFillAtEnd([], mode.base);
    assert Placed([], mode.base, []) == [] + Zeros(mode.base);
  }

  lemma ReadPlainHigh(mode: Mode, st: Scan, row: seq<byte>, c: char)
    requires mode.base >= 0 && mode.postscript && InPlain(mode, st, row) && st.n1 == -1 && DigitValue(c) >= 0
    ensures var r := Step(mode, st, c);
      InPlain(mode, r, row) && r.n1 == DigitValue(c) && !r.ignoreGarbage
  {
    hide ZeroFill, Placed, DigitValue;
    DigitIsKept(mode, c);
    var p := if st.p >= mode.cols then 0 else st.p;
    SyncInPlain(mode, st.(n1 := DigitValue(c), n2 := -1, ignoreGarbage := false, p := p), row);
  }

  lemma ReadPlainLow(mode: Mode, st: Scan, row: seq<byte>, c: char)
    requires mode.base >= 0 && mode.postscript && InPlain(mode, st, row) && st.n1 >= 0 && DigitValue(c) >= 0
    ensures var r := Step(mode, st, c);
      InPlain(mode, r, row + [16 * st.n1 + DigitValue(c)]) && r.n1 == -1 && !r.ignoreGarbage
  {
    hide ZeroFill, Placed, DigitValue, PutAt;
    DigitIsKept(mode, c);
    var p := if st.p >= mode.cols then 0 else st.p;
    var seen := st.(n1 := DigitValue(c), n2 := st.n1, ignoreGarbage := false, p := p);
    SyncInPlain(mode, seen, row);
    PutInBody(Sync(mode, seen).data, [], mode.base, row, 16 * st.n1 + DigitValue(c));
  }

  lemma ReadPlainByte(mode: Mode, st: Scan, row: seq<byte>, e: byte, upper: bool)
    requires mode.base >= 0 && mode.postscript && InPlain(mode, st, row) && st.n1 == -1
    ensures var r := Run(mode, st, BytePair(e, upper));
      InPlain(mode, r, row + [e]) && r.n1 == -1
  {
    hide *;
    var hi, lo := HexDigit(e / 16, upper), HexDigit(e % 16, upper);
    DigitRoundTrip(e / 16, upper);
    DigitRoundTrip(e % 16, upper);
    PairIs(e, upper);
    RunPair(mode, st, "", hi, lo);
    assert "" + [hi, lo] == BytePair(e, upper);
    ReadPlainHigh(mode, st, row, hi);
    ReadPlainLow(mode, Step(mode, st, hi), row, lo);
  }

  lemma {:induction false} ReadPlain(mode: Mode, st: Scan, done: seq<byte>, bytes: seq<byte>, cols: nat,
                                     upper: bool, first: nat)
    requires mode.base >= 0 && mode.postscript && InPlain(mode, st, done) && st.n1 == -1 && first < cols
    ensures InPlain(mode, Run(mode, st, PlainFrom(bytes, cols, upper, first)), done + bytes)
    decreases |bytes|
  {
    hide Run, InPlain, BytePair;
    RunNothing(mode, st);
    BreakKeeps(mode, st, done);
    ReadBreak(mode, st);
    if bytes == [] {
      assert done + bytes == done;
    } else {
      var e, more := bytes[0], bytes[1..];
      var pair := BytePair(e, upper);
      ReadPlainByte(mode, st, done, e, upper);
      var s1 := Run(mode, st, pair);
      assert done + bytes == done + [e] + more;
      if first + 1 == cols {
        ReadBreak(mode, s1);
        var rest := PlainFrom(more, cols, upper, 0);
        assert pair + "\n" + rest == pair + ("\n" + rest);
        RunAppend(mode, st, pair, "\n" + rest);
        RunAppend(mode, s1, "\n", rest);
        BreakKeeps(mode, s1, done + [e]);
        ReadPlain(mode, s1, done + [e], more, cols, upper, 0);
      } else {
        RunAppend(mode, st, pair, PlainFrom(more, cols, upper, first + 1));
        ReadPlain(mode, s1, done + [e], more, cols, upper, first + 1);
      }
    }
  }

  lemma ReadBreak(mode: Mode, st: Scan)
    requires st.Valid() && mode.postscript
    ensures !st.skipping ==> Run(mode, st, "\n") == st
  {
    RunOne(mode, st, '\n');
  }

  lemma BreakKeeps(mode: Mode, st: Scan, row: seq<byte>)
    requires mode.base >= 0 && InPlain(mode, st, row)
    ensures !st.skipping
  {
  }

  /** Reverting a PostScript dump restores the bytes; the column settings of the dump and of the
      reader may differ. */
  lemma PostscriptRoundTrip(bytes: seq<byte>, cols: nat, upper: bool, readCols: nat, base: nat, seekable: bool)
    requires cols >= 1 && readCols >= 1
    ensures var mode := Mode(readCols, true, base, seekable);
      Revert(mode, PlainDump(bytes, cols, upper)) == CText.Some(if bytes == [] then [] else Zeros(base) + bytes)
  {
    hide Run, PlainFrom;
    var mode := Mode(readCols, true, base, seekable);
    var start := Start(mode, []);
    ReadPlain(mode, start, [], bytes, cols, upper, 0);
    assert [] + bytes == bytes;
    if bytes == [] {
      PlainEnd(cols, upper, 0);
      RunNothing(mode, start);
    } else {
      assert Placed([], base, bytes) == Zeros(base) + bytes;
    }
  }

  // ---- any text of digits and blanks ----

  /** c is the hexadecimal digit of value v, in either case. */
  predicate IsDigit(c: char, v: int)
    requires 0 <= v < 16
  {
    c == "0123456789abcdef"[v] || c == "0123456789ABCDEF"[v]
  }

  predicate Blank(c: char) {
    c == ' ' || c == '\t' || c == '\r' || c == '\n'
  }

  /** text without its blanks, tabs and line breaks. */
  function Squeezed(text: string): string {
    if text == "" then ""
    else if Blank(text[0]) then Squeezed(text[1..])
    else [text[0]] + Squeezed(text[1..])
  }

  /** The digits are the pairs of the bytes, and maybe one more digit. */
  predicate Spells(digits: string, bytes: seq<byte>) {
    && |digits| / 2 == |bytes|
    && (forall k :: 0 <= k < |bytes| ==> IsDigit(digits[2 * k], bytes[k] / 16))
    && (forall k :: 0 <= k < |bytes| ==> IsDigit(digits[2 * k + 1], bytes[k] % 16))
    && (|digits| % 2 == 1 ==> digits[|digits| - 1] in "0123456789abcdefABCDEF")
  }

  lemma DigitRead(c: char, v: int)
    requires 0 <= v < 16 && IsDigit(c, v)
    ensures DigitValue(c) == v && !Blank(c)
  {
  }

  lemma SpellsNext(c: char, d: char, more: string, bytes: seq<byte>)
    requires Spells([c, d] + more, bytes)
    ensures bytes != [] && IsDigit(c, bytes[0] / 16) && IsDigit(d, bytes[0] % 16) && Spells(more, bytes[1..])
  {
    var digits, rest := [c, d] + more, bytes[1..];
    assert digits[2 * 0] == c && digits[2 * 0 + 1] == d;
    forall k | 0 <= k < |rest|
      ensures IsDigit(more[2 * k], rest[k] / 16) && IsDigit(more[2 * k + 1], rest[k] % 16)
    {
      assert more[2 * k] == digits[2 * (k + 1)] && more[2 * k + 1] == digits[2 * (k + 1) + 1];
      assert IsDigit(digits[2 * (k + 1)], bytes[k + 1] / 16);
    }
    assert |digits| % 2 == 1 ==> more[|more| - 1] == digits[|digits| - 1];
  }

  /** The first character of a spelling that is not empty is a digit. */
  lemma SpellsFirst(digits: string, bytes: seq<byte>)
    requires digits != "" && Spells(digits, bytes)
    ensures DigitValue(digits[0]) >= 0
  {
    if |digits| > 1 {
      assert digits[2 * 0] == digits[0];
      DigitRead(digits[0], bytes[0] / 16);
    }
  }

  lemma {:induction false} SqueezedHead(text: string)
    ensures text == "" ==> Squeezed(text) == ""
    ensures text != "" && Blank(text[0]) ==> Squeezed(text) == Squeezed(text[1..])
    ensures text != "" && !Blank(text[0]) ==> Squeezed(text) == [text[0]] + Squeezed(text[1..])
  {
  }

  lemma SkipBlank(mode: Mode, st: Scan, c: char, row: seq<byte>)
    requires mode.base >= 0 && mode.postscript && InPlain(mode, st, row) && Blank(c)
    ensures Step(mode, st, c) == st
  {
  }

  /** A digit that waits for its partner counts as the first one of the text. */
  lemma {:induction false} ReadSpaced(mode: Mode, st: Scan, done: seq<byte>, pending: string, text: string,
                                      bytes: seq<byte>)
    requires mode.base >= 0 && mode.postscript && InPlain(mode, st, done)
    requires if pending == "" then st.n1 == -1 else |pending| == 1 && st.n1 == DigitValue(pending[0]) >= 0
    requires Spells(pending + Squeezed(text), bytes)
    ensures var r := Run(mode, st, text);
      && InPlain(mode, r, done + bytes)
      && (|pending + Squeezed(text)| % 2 == 0 ==> r.n1 == -1)
      && (!st.ignoreGarbage || Squeezed(text) != "" ==> !r.ignoreGarbage)
    decreases |text|
  {
    hide *;
    SqueezedHead(text);
    if text == "" {
      RunNothing(mode, st);
      assert pending + "" == pending;
      SpellsLength(pending, bytes);
      assert done + bytes == done;
    } else if Blank(text[0]) {
      SkipBlank(mode, st, text[0], done);
      RunHead(mode, st, text);
      ReadSpaced(mode, st, done, pending, text[1..], bytes);
    } else {
      var c, digits := text[0], Squeezed(text[1..]);
      RunHead(mode, st, text);
      if pending == "" {
        assert pending + Squeezed(text) == [c] + digits;
        SpellsFirst([c] + digits, bytes);
        ReadPlainHigh(mode, st, done, c);
        ReadSpaced(mode, Step(mode, st, c), done, [c], text[1..], bytes);
      } else {
        assert pending + Squeezed(text) == [pending[0], c] + digits;
        SpellsNext(pending[0], c, digits, bytes);
        DigitRead(pending[0], bytes[0] / 16);
        DigitRead(c, bytes[0] % 16);
        ReadPlainLow(mode, st, done, c);
        assert done + [bytes[0]] + bytes[1..] == done + bytes;
        assert "" + digits == digits;
        ReadSpaced(mode, Step(mode, st, c), done + [bytes[0]], "", text[1..], bytes[1..]);
      }
    }
  }

  lemma SpellsLength(digits: string, bytes: seq<byte>)
    requires Spells(digits, bytes)
    ensures |digits| / 2 == |bytes|
  {
  }

  lemma RunHead(mode: Mode, st: Scan, text: string)
    requires st.Valid() && text != ""
    ensures Run(mode, st, text) == Run(mode, Step(mode, st, text[0]), text[1..])
  {
  }

  /** A single digit moves the output to its place, which fills a pipe with zero bytes. */
  lemma {:induction false} ReadSingle(mode: Mode, st: Scan, text: string)
    requires mode.base >= 0 && mode.postscript && InPlain(mode, st, []) && st.n1 == -1
    requires st.data == [] && st.have == 0
    requires |Squeezed(text)| == 1 && Squeezed(text)[0] in "0123456789abcdefABCDEF"
    ensures Run(mode, st, text).data == if mode.seekable then [] else Zeros(mode.base)
    decreases |text|
  {
    hide Run, Step, Spells, ZeroFill;
    var c := text[0];
    RunHead(mode, st, text);
    if Blank(c) {
      SkipBlank(mode, st, c, []);
      ReadSingle(mode, st, text[1..]);
    } else {
      FirstDigit(mode, st, c);
      var r := Step(mode, st, c);
      ReadBlanks(mode, r, text[1..]);
    }
  }

  lemma FirstDigit(mode: Mode, st: Scan, c: char)
    requires mode.base >= 0 && mode.postscript && InPlain(mode, st, []) && st.n1 == -1
    requires st.data == [] && st.have == 0 && c in "0123456789abcdefABCDEF"
    ensures var r := Step(mode, st, c);
      InPlain(mode, r, []) && r.data == if mode.seekable then [] else Zeros(mode.base)
  {
    ReadPlainHigh(mode, st, [], c);
    ZeroFillAtEnd([], mode.base);
    assert [] + Zeros(mode.base) == Zeros(mode.base);
  }

  lemma {:induction false} ReadBlanks(mode: Mode, st: Scan, text: string)
    requires mode.base >= 0 && mode.postscript && InPlain(mode, st, []) && Squeezed(text) == ""
    ensures Run(mode, st, text) == st
    decreases |text|
  {
    hide Run, Step;
    if text == "" {
      RunNothing(mode, st);
    } else {
      RunHead(mode, st, text);
      SkipBlank(mode, st, text[0], []);
      ReadBlanks(mode, st, text[1..]);
    }
  }

  /** A text of digits with blanks, tabs and line breaks anywhere is read as its digits alone: the
      bytes that the pairs of digits spell. A digit without partner writes nothing, but it moves a
      pipe to the base offset. */
  lemma SpacedTextRead(text: string, bytes: seq<byte>, readCols: nat, base: nat, seekable: bool)
    requires readCols >= 1 && Spells(Squeezed(text), bytes)
    ensures Revert(Mode(readCols, true, base, seekable), text) == CText.Some(
        if bytes != [] then Zeros(base) + bytes
        else if Squeezed(text) != "" && !seekable then Zeros(base)
        else [])
  {
    hide Run, Spells;
    var mode := Mode(readCols, true, base, seekable);
    var start := Start(mode, []);
    assert "" + Squeezed(text) == Squeezed(text);
    ReadSpaced(mode, start, [], "", text, bytes);
    assert [] + bytes == bytes;
    if bytes != [] {
      assert Placed([], base, bytes) == Zeros(base) + bytes;
    } else if Squeezed(text) == "" {
      ReadBlanks(mode, start, text);
    } else {
      SingleLeft(Squeezed(text));
      ReadSingle(mode, start, text);
    }
  }

  lemma SingleLeft(digits: string)
    requires digits != "" && Spells(digits, [])
    ensures |digits| == 1 && digits[0] in "0123456789abcdefABCDEF"
  {
  }

  // ---- garbage ----

  /** A line of a PostScript text: digits with blanks, and behind them nothing or two adjacent
      garbage characters with anything behind them. */
  datatype PlainLine = PlainLine(body: string, tail: string, row: seq<byte>) {
    predicate Valid() {
      && |Squeezed(body)| % 2 == 0 && Spells(Squeezed(body), row)
      && (tail != "" ==> row != [] && '\n' !in tail && |tail| >= 2 && Garbage(tail[0]) && Garbage(tail[1]))
    }
  }

  predicate Garbage(c: char) {
    c !in "0123456789abcdefABCDEF" && !Blank(c)
  }

  function LinesText(lines: seq<PlainLine>): string {
    if lines == [] then "" else lines[0].body + (lines[0].tail + "\n") + LinesText(lines[1..])
  }

  function LinesBytes(lines: seq<PlainLine>): seq<byte> {
    if lines == [] then [] else lines[0].row + LinesBytes(lines[1..])
  }

  lemma GarbageRead(c: char)
    requires Garbage(c)
    ensures DigitValue(c) == -1 && c != '\n' && !Blank(c)
  {
  }

  lemma ReadGarbage(mode: Mode, st: Scan, row: seq<byte>, c: char)
    requires mode.base >= 0 && mode.postscript && row != [] && InPlain(mode, st, row)
    requires st.n1 == -1 && !st.ignoreGarbage && Garbage(c)
    ensures var r := Step(mode, st, c);
      && r.n1 == -1 && !r.failed && InPlain(mode, r.(skipping := false), row)
      && (!r.skipping ==> InPlain(mode, r, row) && r.n2 == -1 && !r.ignoreGarbage)
      && (st.n2 == -1 ==> r.skipping)
  {
    hide DigitValue, ZeroFill, Placed;
    GarbageRead(c);
  }

  /** What stands behind two garbage characters is dropped up to the line break. */
  lemma ReadTail(mode: Mode, st: Scan, row: seq<byte>, tail: string)
    requires mode.base >= 0 && mode.postscript && row != [] && InPlain(mode, st, row)
    requires st.n1 == -1 && !st.ignoreGarbage
    requires |tail| >= 2 && Garbage(tail[0]) && Garbage(tail[1]) && '\n' !in tail
    ensures var r := Run(mode, st, tail + "\n");
      InPlain(mode, r, row) && r.n1 == -1
  {
    hide *;
    SplitTail(tail);
    var front, rest := "" + [tail[0], tail[1]], tail[2..];
    RunPair(mode, st, "", tail[0], tail[1]);
    var r := Run(mode, st, front);
    TwoGarbage(mode, st, row, tail[0], tail[1]);
    RunAppend(mode, st, front, rest + "\n");
    RunAppend(mode, r, rest, "\n");
    DropRest(mode, r, rest);
    RunOne(mode, r, '\n');
    StepSkip(mode, r, '\n');
  }

  lemma TwoGarbage(mode: Mode, st: Scan, row: seq<byte>, c: char, d: char)
    requires mode.base >= 0 && mode.postscript && row != [] && InPlain(mode, st, row)
    requires st.n1 == -1 && !st.ignoreGarbage && Garbage(c) && Garbage(d)
    ensures var r := Step(mode, Step(mode, st, c), d);
      r.skipping && !r.failed && r.n1 == -1 && InPlain(mode, r.(skipping := false), row)
  {
    hide *;
    var s1 := Step(mode, st, c);
    ReadGarbage(mode, st, row, c);
    GarbageRead(d);
    if s1.skipping {
      StepSkip(mode, s1, d);
    } else {
      ReadGarbage(mode, s1, row, d);
    }
  }

  lemma SplitTail(tail: string)
    requires |tail| >= 2 && '\n' !in tail
    ensures tail + "\n" == ("" + [tail[0], tail[1]]) + (tail[2..] + "\n")
    ensures tail[0] != '\n' && tail[1] != '\n' && '\n' !in tail[2..]
  {
  }

  lemma StepSkip(mode: Mode, st: Scan, c: char)
    requires st.Valid() && st.skipping && !st.failed
    ensures Step(mode, st, c) == st.(skipping := c != '\n')
  {
  }

  lemma {:induction false} ReadPlainLines(mode: Mode, st: Scan, done: seq<byte>, lines: seq<PlainLine>)
    requires mode.base >= 0 && mode.postscript && InPlain(mode, st, done) && st.n1 == -1
    requires forall l <- lines :: l.Valid()
    ensures InPlain(mode, Run(mode, st, LinesText(lines)), done + LinesBytes(lines))
    decreases |lines|
  {
    hide Run, InPlain, Spells, Squeezed;
    if lines == [] {
      RunNothing(mode, st);
      assert done + [] == done;
    } else {
      var l := lines[0];
      assert l in lines;
      assert "" + Squeezed(l.body) == Squeezed(l.body);
      ReadSpaced(mode, st, done, "", l.body, l.row);
      var s1 := Run(mode, st, l.body);
      BreakKeeps(mode, s1, done + l.row);
      ReadBreak(mode, s1);
      SpellsLength(Squeezed(l.body), l.row);
      if l.tail == "" {
        assert l.tail + "\n" == "\n";
      } else {
        ReadTail(mode, s1, done + l.row, l.tail);
      }
      var s2 := Run(mode, s1, l.tail + "\n");
      ReadPlainLines(mode, s2, done + l.row, lines[1..]);
      assert done + l.row + LinesBytes(lines[1..]) == done + LinesBytes(lines);
      RunAppend(mode, st, l.body, l.tail + "\n");
      RunAppend(mode, st, l.body + (l.tail + "\n"), LinesText(lines[1..]));
    }
  }

  /** Two adjacent garbage characters behind data end the data of their line: whatever follows on
      the line, digits included, is dropped, and the next line is read again. */
  lemma GarbageDropped(lines: seq<PlainLine>, readCols: nat, base: nat, seekable: bool)
    requires readCols >= 1 && LinesBytes(lines) != [] && forall l <- lines :: l.Valid()
    ensures Revert(Mode(readCols, true, base, seekable), LinesText(lines))
         == CText.Some(Zeros(base) + LinesBytes(lines))
  {
    hide Run, LinesText, LinesBytes;
    var mode := Mode(readCols, true, base, seekable);
    var bytes := LinesBytes(lines);
    ReadPlainLines(mode, Start(mode, []), [], lines);
    assert [] + bytes == bytes;
    assert Placed([], base, bytes) == Zeros(base) + bytes;
  }
}
