/** What the text of a dump looks like, column by column and line by line (external/xxd/xxd.c). */
module XxdLayout {
  import opened Bytes
  import opened XxdFormat
  import opened XxdDump
  import opened XxdRoundTrip

  // ---- the columns of a line ----

  /** The two digits of byte p stand behind p pairs and one blank for every group that was begun. */
  lemma {:induction false} HexAt(row: seq<byte>, g: nat, upper: bool, p: nat)
    requires g > 0 && p < |row|
    ensures var hex, c := HexArea(row, g, upper), 1 + 2 * p + p / g;
      && c + 1 < |hex|
      && hex[c] == HexDigit(row[p] / 16, upper) && hex[c + 1] == HexDigit(row[p] % 16, upper)
  {
    hide HexDigit;
    var q := |row| - 1;
    HexAreaLength(row[..q], g, upper);
    if p < q {
      HexAt(row[..q], g, upper, p);
    } else if p == 0 {
      DivUnique(0, g, 0, 0);
    } else {
      GroupStep(p, g);
    }
  }

  /** Everything else in the area is blank. */
  lemma {:induction false} HexBlank(row: seq<byte>, g: nat, upper: bool, c: nat)
    requires g > 0 && c < |HexArea(row, g, upper)|
    requires forall p :: 0 <= p < |row| ==> c != 1 + 2 * p + p / g && c != 2 + 2 * p + p / g
    ensures HexArea(row, g, upper)[c] == ' '
  {
    hide HexDigit;
    var q := |row| - 1;
    HexAreaLength(row[..q], g, upper);
    if c < |HexArea(row[..q], g, upper)| {
      HexBlank(row[..q], g, upper, c);
    } else if q == 0 {
      DivUnique(0, g, 0, 0);
      assert c != 1 + 2 * q + q / g && c != 2 + 2 * q + q / g;
    } else {
      GroupStep(q, g);
      assert c != 1 + 2 * q + q / g && c != 2 + 2 * q + q / g;
    }
  }

  lemma {:induction false} DigitsLower(a: nat, n: nat)
    ensures forall c <- Digits(a, n) :: c in "0123456789abcdef"
  {
    if n > 0 {
      DigitsLower(a / 16, n - 1);
    }
  }

  /** A decimal digit, or the letter that follows 'a' or 'A' as far as the value follows ten; read
      back it is that value again. */
  lemma HexDigitIs(v: int, upper: bool)
    requires 0 <= v < 16
    ensures HexDigit(v, upper) as int
         == if v < 10 then '0' as int + v else (if upper then 'A' else 'a') as int + v - 10
    ensures DigitValue(HexDigit(v, upper)) == v
  {
  }

  lemma LinePlaces(offset: nat, row: seq<byte>, cols: nat, g: nat, upper: bool, c: nat)
    requires |row| <= cols && 0 < g <= cols
    ensures var line, hex := Line(offset, row, cols, g, upper), HexArea(row, g, upper);
      var ascii := 12 + 2 * cols + (cols - 1) / g;
      && |line| == ascii + |row| + 1 && 9 + |hex| <= ascii && line[..8] == Address(offset) && line[8] == ':'
      && (c < |hex| ==> line[9 + c] == hex[c])
      && (9 + |hex| <= c < ascii ==> line[c] == ' ')
      && (c < |row| ==> line[ascii + c] == AsciiCell(row[c]))
      && line[ascii + |row|] == '\n'
  {
    hide HexArea, Digits, Address, AsciiCell;
    HexAreaFits(row, cols, g, upper);
    var hex := HexArea(row, g, upper);
    var gap, tail := Blanks(AsciiColumn(cols, g) - 9 - |hex|), Ascii(row);
    var line := Line(offset, row, cols, g, upper);
    assert line == Address(offset) + ":" + hex + gap + tail + "\n";
    if 9 + |hex| <= c < AsciiColumn(cols, g) {
      assert line[c] == gap[c - 9 - |hex|];
    }
    if c < |row| {
      assert line[AsciiColumn(cols, g) + c] == tail[c];
    }
  }

  /** A line starts with eight lower case digits of the address and a colon, and ends with a line
      break behind one ASCII cell for every byte. */
  lemma LineFrame(offset: nat, row: seq<byte>, cols: nat, g: nat, upper: bool)
    requires |row| <= cols && 0 < g <= cols
    ensures var line, ascii := Line(offset, row, cols, g, upper), 12 + 2 * cols + (cols - 1) / g;
      && |line| == ascii + |row| + 1 && line[ascii + |row|] == '\n' && line[8] == ':'
      && (forall c <- line[..8] :: c in "0123456789abcdef" && DigitValue(c) >= 0)
      && Accumulate(0, line[..8]) == offset % 0x1_0000_0000
  {
    hide *;
    LinePlaces(offset, row, cols, g, upper, 0);
    AddressRead(offset % 0x1_0000_0000);
    AddressIs(offset);
  }

  lemma AddressIs(offset: nat)
    ensures Address(offset) == Address(offset % 0x1_0000_0000)
    ensures forall c <- Address(offset) :: c in "0123456789abcdef"
  {
    hide Digits;
    DigitsLower(offset % 0x1_0000_0000, 8);
  }

  /** Byte p shows as two digits behind p pairs and one blank for every group begun so far. */
  lemma LineDigits(offset: nat, row: seq<byte>, cols: nat, g: nat, upper: bool, p: nat) returns (c: nat)
    requires |row| <= cols && 0 < g <= cols && p < |row|
    ensures c == 10 + 2 * p + p / g && c + 1 < |Line(offset, row, cols, g, upper)|
    ensures Line(offset, row, cols, g, upper)[c] == HexDigit(row[p] / 16, upper)
    ensures Line(offset, row, cols, g, upper)[c + 1] == HexDigit(row[p] % 16, upper)
  {
    hide *;
    HexAt(row, g, upper, p);
    var h := 1 + 2 * p + p / g;
    LinePlaces(offset, row, cols, g, upper, h);
    LinePlaces(offset, row, cols, g, upper, h + 1);
    c := 9 + h;
  }

  /** In the ASCII text a byte shows as itself if it is a visible character or a blank, and as a
      dot if not. */
  lemma LineCell(offset: nat, row: seq<byte>, cols: nat, g: nat, upper: bool, p: nat)
    requires |row| <= cols && 0 < g <= cols && p < |row|
    ensures var line, ascii := Line(offset, row, cols, g, upper), 12 + 2 * cols + (cols - 1) / g;
      && ascii + p < |line|
      && line[ascii + p] == if ' ' as int <= row[p] <= '~' as int then row[p] as char else '.'
  {
    hide *;
    LinePlaces(offset, row, cols, g, upper, p);
    AsciiCellIs(row[p]);
  }

  lemma AsciiCellIs(b: byte)
    ensures AsciiCell(b) == if ' ' as int <= b <= '~' as int then b as char else '.'
  {
  }

  /** Between the colon and the ASCII text every column that holds no digit is blank. */
  lemma LineBlank(offset: nat, row: seq<byte>, cols: nat, g: nat, upper: bool, c: nat)
    requires |row| <= cols && 0 < g <= cols && 9 <= c < 12 + 2 * cols + (cols - 1) / g
    requires forall p :: 0 <= p < |row| ==> c != 10 + 2 * p + p / g && c != 11 + 2 * p + p / g
    ensures var line := Line(offset, row, cols, g, upper);
      c < |line| && line[c] == ' '
  {
    hide *;
    LinePlaces(offset, row, cols, g, upper, c);
    LinePlaces(offset, row, cols, g, upper, c - 9);
    if c < 9 + |HexArea(row, g, upper)| {
      HexBlank(row, g, upper, c - 9);
    }
  }

  // ---- runs of zero lines ----

  /** All of them are zero lines. */
  predicate ZeroLines(fed: seq<Fed>) {
    forall i :: 0 <= i < |fed| ==> fed[i].zero
  }

  lemma {:induction false} ZeroRunIs(before: seq<Fed>, zeros: seq<Fed>)
    requires ZeroLines(zeros) && (before == [] || !before[|before| - 1].zero)
    ensures ZeroRun(before + zeros) == |zeros|
    ensures Shown(before + zeros)
         == if zeros == [] then Shown(before) else Shown(before) + Pending(before) + zeros[0].text
    decreases |zeros|
  {
    hide Shown;
    if zeros == [] {
      assert before + zeros == before;
    } else {
      var q := |zeros| - 1;
      ZeroRunIs(before, zeros[..q]);
      assert before + zeros == before + zeros[..q] + [zeros[q]];
      ShownExtend(before + zeros[..q], zeros[q]);
    }
  }

  /** What is shown of a run of zero lines that ends with another line: its first line, its second
      one when there are just two, a star when there are more. */
  lemma ZeroRunShown(before: seq<Fed>, zeros: seq<Fed>, line: Fed)
    requires ZeroLines(zeros) && !line.zero && (before == [] || !before[|before| - 1].zero)
    ensures Shown(before + zeros + [line]) == Shown(before) +
      (if |zeros| == 0 then ""
       else if |zeros| == 1 then zeros[0].text
       else if |zeros| == 2 then zeros[0].text + zeros[1].text
       else zeros[0].text + "*\n") + line.text
  {
    hide Shown;
    ZeroRunIs(before, zeros);
    ZeroRunIs(before, []);
    assert before + [] == before;
    ShownExtend(before + zeros, line);
    assert zeros != [] ==> (before + zeros)[|before| + |zeros| - 1] == zeros[|zeros| - 1];
  }

  /** A run of zero lines at the end of the input, behind the final flush: the last line is shown
      in any case, so that only four and more lines are shortened. */
  lemma ZeroRunClosed(before: seq<Fed>, zeros: seq<Fed>)
    requires ZeroLines(zeros) && zeros != [] && (before == [] || !before[|before| - 1].zero)
    ensures Shown(Closed(before + zeros)) == Shown(before) +
      if |zeros| == 1 then zeros[0].text
      else if |zeros| == 2 then zeros[0].text + zeros[1].text
      else if |zeros| == 3 then zeros[0].text + zeros[1].text + zeros[2].text
      else zeros[0].text + "*\n" + zeros[|zeros| - 1].text
  {
    hide Shown, ZeroRun, Closed;
    var q := |zeros| - 1;
    var last := zeros[q].(zero := false);
    ClosedRun(before, zeros);
    ZeroRunShown(before, zeros[..q], last);
    var shown :=
      if q == 0 then ""
      else if q == 1 then zeros[0].text
      else if q == 2 then zeros[0].text + zeros[1].text
      else zeros[0].text + "*\n";
    Associate(Shown(before), shown, last.text);
    assert "" + last.text == last.text;
  }

  lemma ClosedRun(before: seq<Fed>, zeros: seq<Fed>)
    requires zeros != []
    ensures Closed(before + zeros) == before + zeros[..|zeros| - 1] + [zeros[|zeros| - 1].(zero := false)]
  {
    var q := |zeros| - 1;
    assert (before + zeros)[..|before| + q] == before + zeros[..q];
  }

  /** One line for every cols bytes from offset o on, and one for the rest. */
  function LinesFrom(f: Layout, bytes: seq<byte>, o: nat): string
    requires f.Valid() && o <= |bytes|
    decreases |bytes| - o
  {
    if o == |bytes| then ""
    else
      var end := if o + f.cols <= |bytes| then o + f.cols else |bytes|;
      Line(o, bytes[o..end], f.cols, f.group, f.upper) + LinesFrom(f, bytes, end)
  }

  /** Without the suppression of zero lines the dump is simply all lines in order. */
  lemma NoAutoskip(f: Layout, bytes: seq<byte>)
    requires f.Valid() && !f.autoskip
    ensures NormalDump(f, bytes) == LinesFrom(f, bytes, 0)
  {
    hide Shown, Rows, Line, FullPart, PartialRow;
    var full := FullPart(f.cols, |bytes|);
    FullPartAligned(f.cols, |bytes|);
    LinesSplit(f, bytes, full);
    if full < |bytes| {
      var rest := bytes[full..];
      PartialRowIs(f, full, rest);
      ShownExtend(Rows(f, bytes, full), PartialRow(f, full, rest));
      assert bytes[full..|bytes|] == rest;
      assert LinesFrom(f, bytes, |bytes|) == "";
      assert LinesFrom(f, bytes, full) == Line(full, rest, f.cols, f.group, f.upper) + "";
    }
  }

  lemma {:induction false} LinesSplit(f: Layout, bytes: seq<byte>, end: nat)
    requires f.Valid() && !f.autoskip && end <= |bytes| && LineStart(f.cols, end)
    ensures ZeroRun(Rows(f, bytes, end)) == 0 && Pending(Rows(f, bytes, end)) == ""
    ensures LinesFrom(f, bytes, 0) == Shown(Rows(f, bytes, end)) + LinesFrom(f, bytes, end)
  {
    hide Shown, Rows, Line;
    NothingShown(f, bytes);
    LineStartCases(f.cols, end);
    if end > 0 {
      var before := end - f.cols;
      LinesSplit(f, bytes, before);
      FullRowIs(f, bytes, before);
      var line := Line(before, bytes[before..end], f.cols, f.group, f.upper);
      ShownExtend(Rows(f, bytes, before), Fed(line, false));
      assert LinesFrom(f, bytes, before) == line + LinesFrom(f, bytes, end);
    }
  }

  lemma {:induction false} ZeroRows(f: Layout, bytes: seq<byte>, end: nat)
    requires f.Valid() && f.autoskip && end <= |bytes| && LineStart(f.cols, end) && AllZero(bytes)
    ensures var rows := Rows(f, bytes, end);
      && ZeroLines(rows) && (end >= 4 * f.cols ==> |rows| >= 4)
      && (end >= 3 * f.cols ==> |rows| >= 3) && (end >= 2 * f.cols ==> |rows| >= 2)
      && (end > 0 ==> rows != [] && rows[0].text == Line(0, Zeros(f.cols), f.cols, f.group, f.upper)
                      && rows[|rows| - 1].text == Line(end - f.cols, Zeros(f.cols), f.cols, f.group, f.upper))
  {
    hide Line, Rows;
    BeforeFirstLine(f, bytes);
    LineStartCases(f.cols, end);
    if end > 0 {
      var before := end - f.cols;
      ZeroRows(f, bytes, before);
      FullRowIs(f, bytes, before);
      assert bytes[before..end] == Zeros(f.cols);
    }
  }

  /** The dump of four and more lines of zeros is its first line, a star and its last line. */
  lemma ZeroFile(f: Layout, bytes: seq<byte>)
    requires f.Valid() && f.autoskip && AllZero(bytes) && LineStart(f.cols, |bytes|) && |bytes| >= 4 * f.cols
    ensures NormalDump(f, bytes)
         == Line(0, Zeros(f.cols), f.cols, f.group, f.upper) + "*\n"
            + Line(|bytes| - f.cols, Zeros(f.cols), f.cols, f.group, f.upper)
  {
    hide *;
    ZeroRows(f, bytes, |bytes|);
    NoRest(f, bytes);
    var rows := Rows(f, bytes, |bytes|);
    OnlyZeros(rows);
  }

  lemma OnlyZeros(zeros: seq<Fed>)
    requires ZeroLines(zeros) && |zeros| >= 4
    ensures Shown(Closed(zeros)) == zeros[0].text + "*\n" + zeros[|zeros| - 1].text
  {
    hide Shown, ZeroRun, Closed, Pending;
    ZeroRunClosed([], zeros);
    assert [] + zeros == zeros;
    ShownNothing();
  }

  lemma ShownNothing()
    ensures Shown([]) == ""
  {
  }

  lemma NoRest(f: Layout, bytes: seq<byte>)
    requires f.Valid() && LineStart(f.cols, |bytes|) && f.autoskip
    ensures NormalDump(f, bytes) == Shown(Closed(Rows(f, bytes, |bytes|))) && f.cols > 0
  {
    AfterLastLine(f, bytes, |bytes|, []);
  }

  // ---- the lines of a PostScript dump ----

  function Pairs(bytes: seq<byte>, upper: bool): string {
    if bytes == [] then "" else BytePair(bytes[0], upper) + Pairs(bytes[1..], upper)
  }

  lemma {:induction false} PairsAt(bytes: seq<byte>, upper: bool, k: nat)
    requires k < |bytes|
    ensures var text := Pairs(bytes, upper);
      && |text| == 2 * |bytes|
      && text[2 * k] == HexDigit(bytes[k] / 16, upper) && text[2 * k + 1] == HexDigit(bytes[k] % 16, upper)
  {
    hide HexDigit;
    if |bytes| == 1 {
      assert bytes[1..] == [];
    } else {
      PairsAt(bytes[1..], upper, if k > 0 then k - 1 else 0);
    }
  }

  lemma {:induction false} PlainFromIs(bytes: seq<byte>, cols: nat, upper: bool, first: nat)
    requires first < cols
    ensures PlainFrom(bytes, cols, upper, first)
         == if |bytes| >= cols - first then
              Pairs(bytes[..cols - first], upper) + "\n" + PlainFrom(bytes[cols - first..], cols, upper, 0)
            else if bytes == [] && first == 0 then ""
            else Pairs(bytes, upper) + "\n"
    decreases |bytes|
  {
    hide BytePair;
    if bytes != [] {
      var e, more := bytes[0], bytes[1..];
      if first + 1 < cols {
        PlainFromIs(more, cols, upper, first + 1);
        if |bytes| >= cols - first {
          PairsHead(e, more[..cols - first - 1], upper);
          assert bytes[..cols - first] == [e] + more[..cols - first - 1];
          assert bytes[cols - first..] == more[cols - first - 1..];
        } else {
          PairsHead(e, more, upper);
          assert bytes == [e] + more;
        }
      } else {
        PairsHead(e, [], upper);
        assert bytes[..1] == [e] + [];
      }
    }
  }

  lemma PairsHead(e: byte, more: seq<byte>, upper: bool)
    ensures Pairs([e] + more, upper) == BytePair(e, upper) + Pairs(more, upper)
  {
    assert ([e] + more)[1..] == more;
  }

  /** A PostScript dump shows cols bytes on a line, two digits each, and the rest on a last one. */
  lemma PlainLines(bytes: seq<byte>, cols: nat, upper: bool)
    requires cols > 0
    ensures bytes == [] ==> PlainDump(bytes, cols, upper) == ""
    ensures 0 < |bytes| < cols ==> PlainDump(bytes, cols, upper) == Pairs(bytes, upper) + "\n"
    ensures |bytes| >= cols ==>
      PlainDump(bytes, cols, upper) == Pairs(bytes[..cols], upper) + "\n" + PlainDump(bytes[cols..], cols, upper)
  {
    PlainFromIs(bytes, cols, upper, 0);
  }
}
