/** The two text formats that xxd writes (external/xxd/xxd.c) and that huntype reads back:
    hexadecimal digits, the lines of a normal dump, and the plain PostScript dump. */
module XxdFormat {
  import opened Bytes
  import CText

  const MAX_COLS := 256
  /** The declared size of the line buffer, LLEN. */
  const LINE_SIZE := 12 + (9 * MAX_COLS - 1) + MAX_COLS + 2

  // ---- digits ----

  function HexDigit(v: int, upper: bool): char
    requires 0 <= v < 16
  {
    if upper then "0123456789ABCDEF"[v] else "0123456789abcdef"[v]
  }

  /** The value of a hexadecimal digit, and -1 for every other character. */
  function DigitValue(c: char): (v: int)
    ensures -1 <= v < 16
  {
    if CText.Digit(c) < 16 then CText.Digit(c) else -1
  }

  lemma DigitRoundTrip(v: int, upper: bool)
    requires 0 <= v < 16
    ensures DigitValue(HexDigit(v, upper)) == v
  {
  }

  function BytePair(b: byte, upper: bool): (s: string)
    ensures |s| == 2
  {
    [HexDigit(b / 16, upper), HexDigit(b % 16, upper)]
  }

  /** The last n hexadecimal digits of a, as "%0nlx" prints a number below 16^n. */
  function Digits(a: nat, n: nat): (s: string)
    ensures |s| == n
  {
    if n == 0 then "" else Digits(a / 16, n - 1) + [HexDigit(a % 16, false)]
  }

  /** The address field: "%08lx" of the offset cut to 32 bits. */
  function Address(offset: nat): (s: string)
    ensures |s| == 8
  {
    Digits(offset % 0x1_0000_0000, 8)
  }

  // ---- one line of a normal dump ----

  function Blanks(n: nat): (s: string)
    ensures |s| == n
  {
    seq(n, _ => ' ')
  }

  function Zeros(n: nat): (s: seq<byte>)
    ensures |s| == n
  {
    seq(n, _ => 0)
  }

  function AsciiCell(b: byte): (c: char) {
    if 31 < b < 127 then b as char else '.'
  }

  function Ascii(row: seq<byte>): (s: string)
    ensures |s| == |row|
  {
    seq(|row|, i requires 0 <= i < |row| => AsciiCell(row[i]))
  }

  /** The hexadecimal area: groups of g byte pairs, each group behind one blank. */
  function HexArea(row: seq<byte>, g: nat, upper: bool): string
    requires g > 0
  {
    if row == [] then ""
    else
      var q := |row| - 1;
      HexArea(row[..q], g, upper) + (if q % g == 0 then " " else "") + BytePair(row[q], upper)
  }

  /** The column where the ASCII text starts. */
  function AsciiColumn(cols: nat, g: nat): int
    requires cols > 0 && g > 0
  {
    12 + 2 * cols + (cols - 1) / g
  }

  /** A line as far as it is laid out once the bytes of row are in the line buffer. */
  function LineSoFar(offset: nat, row: seq<byte>, cols: nat, g: nat, upper: bool): (s: string)
    requires |row| <= cols && 0 < g <= cols
    ensures |s| == AsciiColumn(cols, g) + |row|
  {
    HexAreaFits(row, cols, g, upper);
    var hex := HexArea(row, g, upper);
    Address(offset) + ":" + hex + Blanks(AsciiColumn(cols, g) - 9 - |hex|) + Ascii(row)
  }

  function Line(offset: nat, row: seq<byte>, cols: nat, g: nat, upper: bool): string
    requires |row| <= cols && 0 < g <= cols
  {
    LineSoFar(offset, row, cols, g, upper) + "\n"
  }

  // ---- column arithmetic ----

  /** The source computes columns as (2g + 1) * p / g; this is 2p plus one per complete group. */
  lemma ColumnArithmetic(g: nat, p: nat)
    requires g > 0
    ensures ((2 * g + 1) * p) / g == 2 * p + p / g
  {
    assert (2 * g + 1) * p == g * (2 * p) + p;
    DivOffset(g, 2 * p, p);
  }

  lemma DivOffset(g: nat, k: int, p: int)
    requires g > 0
    ensures (g * k + p) / g == k + p / g
  {
    var q, r := p / g, p % g;
    assert p == g * q + r;
    assert g * k + p == g * (k + q) + r;
    DivUnique(g * k + p, g, k + q, r);
  }

  lemma QuotientUnique(g: nat, q: int, r: int, q': int, r': int)
    requires 0 <= r < g && 0 <= r' < g && g * q + r == g * q' + r'
    ensures q == q'
  {
    assert g * (q - q') == r' - r;
    if q - q' >= 1 {
      MulAtLeast(g, q - q');
    } else if q' - q >= 1 {
      MulAtLeast(g, q' - q);
    }
  }

  lemma MulAtLeast(g: nat, k: int)
    requires k >= 1
    ensures g * k >= g
  {
    assert g * k == g + g * (k - 1);
  }

  lemma DivUnique(n: int, g: nat, q: int, r: int)
    requires g > 0 && 0 <= r < g && n == g * q + r
    ensures n / g == q && n % g == r
  {
    QuotientUnique(g, q, r, n / g, n % g);
  }

  /** A partial group before byte p is a group all the same. */
  lemma GroupStep(p: nat, g: nat)
    requires g > 0 && p > 0
    ensures (p - 1) / g + (if p % g == 0 then 1 else 0) == p / g
  {
    var q, r := p / g, p % g;
    assert p == g * q + r;
    if r == 0 {
      assert p - 1 == g * (q - 1) + (g - 1);
      DivUnique(p - 1, g, q - 1, g - 1);
    } else {
      DivUnique(p - 1, g, q, r - 1);
    }
  }

  /** The area of p bytes ends where the source's column formula puts the last digit. */
  lemma {:induction false} HexAreaLength(row: seq<byte>, g: nat, upper: bool)
    requires g > 0
    ensures |HexArea(row, g, upper)|
         == if row == [] then 0 else 1 + 2 * |row| + (|row| - 1) / g
  {
    if |row| == 1 {
      assert HexArea(row[..0], g, upper) == "";
      DivUnique(0, g, 0, 0);
    } else if |row| > 1 {
      var q := |row| - 1;
      HexAreaLength(row[..q], g, upper);
      GroupStep(q, g);
    }
  }

  lemma GroupsMonotone(p: nat, cols: nat, g: nat)
    requires 0 < p <= cols && g > 0
    ensures (p - 1) / g <= (cols - 1) / g
  {
    if p < cols {
      GroupsMonotone(p, cols - 1, g);
      GroupStep(cols - 1, g);
    }
  }

  lemma HexAreaFits(row: seq<byte>, cols: nat, g: nat, upper: bool)
    requires |row| <= cols && 0 < g <= cols
    ensures 9 + |HexArea(row, g, upper)| + 2 <= AsciiColumn(cols, g)
  {
    HexAreaLength(row, g, upper);
    if row != [] { GroupsMonotone(|row|, cols, g); }
  }

  /** Between the last digit and the ASCII text there are exactly two blanks in a full line,
      and at least two more for every missing byte of a partial one. */
  lemma BlanksBeforeAscii(row: seq<byte>, cols: nat, g: nat, upper: bool)
    requires 0 < |row| <= cols && 0 < g <= cols
    ensures var gap := AsciiColumn(cols, g) - 9 - |HexArea(row, g, upper)|;
      && (|row| == cols ==> gap == 2)
      && gap >= 2 + 2 * (cols - |row|)
  {
    HexAreaLength(row, g, upper);
    GroupsMonotone(|row|, cols, g);
  }

  // ---- no control characters inside a line ----

  /** Blanks to '~': in particular no CR, LF or NUL. */
  predicate Printable(s: string) {
    forall i :: 0 <= i < |s| ==> ' ' <= s[i] <= '~'
  }

  lemma PrintableAppend(a: string, b: string)
    requires Printable(a) && Printable(b)
    ensures Printable(a + b)
  {
  }

  lemma PairPrintable(b: byte, upper: bool)
    ensures Printable(BytePair(b, upper))
  {
  }

  lemma {:induction false} DigitsPrintable(a: nat, n: nat)
    ensures Printable(Digits(a, n))
  {
    if n > 0 { DigitsPrintable(a / 16, n - 1); }
  }

  lemma {:induction false} HexAreaPrintable(row: seq<byte>, g: nat, upper: bool)
    requires g > 0
    ensures Printable(HexArea(row, g, upper))
  {
    if row != [] {
      var q := |row| - 1;
      HexAreaPrintable(row[..q], g, upper);
      PairPrintable(row[q], upper);
      PrintableAppend(if q % g == 0 then " " else "", BytePair(row[q], upper));
      PrintableAppend(HexArea(row[..q], g, upper), (if q % g == 0 then " " else "") + BytePair(row[q], upper));
      assert HexArea(row, g, upper)
          == HexArea(row[..q], g, upper) + ((if q % g == 0 then " " else "") + BytePair(row[q], upper));
    }
  }

  lemma LinePrintable(offset: nat, row: seq<byte>, cols: nat, g: nat, upper: bool)
    requires |row| <= cols && 0 < g <= cols
    ensures Printable(LineSoFar(offset, row, cols, g, upper))
  {
    DigitsPrintable(offset % 0x1_0000_0000, 8);
    HexAreaPrintable(row, g, upper);
    HexAreaFits(row, cols, g, upper);
  }

  // ---- the PostScript dump ----

  /** Byte pairs with a line break behind every cols of them; `first` bytes were already on
      the current line. */
  function PlainFrom(bytes: seq<byte>, cols: nat, upper: bool, first: nat): string
    requires first < cols
  {
    if bytes == [] then (if first > 0 then "\n" else "")
    else if first + 1 == cols then BytePair(bytes[0], upper) + "\n" + PlainFrom(bytes[1..], cols, upper, 0)
    else BytePair(bytes[0], upper) + PlainFrom(bytes[1..], cols, upper, first + 1)
  }

  function PlainDump(bytes: seq<byte>, cols: nat, upper: bool): string
    requires cols > 0
  {
    PlainFrom(bytes, cols, upper, 0)
  }
}
