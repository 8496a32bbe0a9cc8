/** The C library text functions that the sources rely on. */
module CText {

  const SIZE_MAX := 0xffff_ffff_ffff_ffff

  datatype Option<+T> = None | Some(value: T)

  // ---- C strings ----

  /** What C sees of a buffer: everything in front of the first NUL. */
  function CStr(s: string): (r: string)
    ensures |r| <= |s| && r == s[..|r|] && '\0' !in r
    ensures |r| < |s| ==> s[|r|] == '\0'
  {
    if s == [] || s[0] == '\0' then "" else [s[0]] + CStr(s[1..])
  }

  lemma {:induction false} CStrWhole(s: string)
    requires '\0' !in s
    ensures CStr(s) == s
  {
    if s != "" {
      assert s[0] in s;
      CStrWhole(s[1..]);
    }
  }

  /** A NUL behind s hides everything that follows. */
  lemma {:induction false} CStrTerminated(s: string, more: string)
    ensures CStr(s + "\0" + more) == CStr(s)
  {
    if s == [] {
      assert (s + "\0" + more)[0] == '\0';
    } else {
      assert (s + "\0" + more)[1..] == s[1..] + "\0" + more;
      CStrTerminated(s[1..], more);
    }
  }

  function Lower(c: char): char {
    if 'A' <= c <= 'Z' then (c as int + 32) as char else c
  }

  /** strncasecmp(a, b, n) == 0 for strings of at least n characters. */
  predicate SameIgnoringCase(a: string, b: string) {
    |a| == |b| && forall i :: 0 <= i < |a| ==> Lower(a[i]) == Lower(b[i])
  }

  /** strcasestr. */
  predicate ContainsIgnoringCase(s: string, part: string) {
    |s| >= |part| && (SameIgnoringCase(s[..|part|], part) || (s != "" && ContainsIgnoringCase(s[1..], part)))
  }

  predicate IsSpace(c: char) {
    c == ' ' || ('\t' <= c <= '\r')
  }

  function SkipSpaces(s: string): (r: string)
    ensures |r| <= |s|
  {
    if s != "" && IsSpace(s[0]) then SkipSpaces(s[1..]) else s
  }

  // ---- numbers ----

  /** The value of a digit in bases up to 16, and 16 for every other character. */
  function Digit(c: char): (d: nat)
    ensures d <= 16
  {
    if '0' <= c <= '9' then c as int - '0' as int
    else if 'a' <= c <= 'f' then c as int - 'a' as int + 10
    else if 'A' <= c <= 'F' then c as int - 'A' as int + 10
    else 16
  }

  /** The digits s starts with. */
  function LeadingDigits(s: string, base: nat): (r: string)
    ensures |r| <= |s| && r == s[..|r|]
  {
    if s == "" || Digit(s[0]) >= base then "" else [s[0]] + LeadingDigits(s[1..], base)
  }

  function Value(digits: string, base: nat): nat {
    if digits == "" then 0 else Value(digits[..|digits| - 1], base) * base + Digit(digits[|digits| - 1])
  }

  predicate AllDigits(s: string, base: nat) {
    forall c <- s :: Digit(c) < base
  }

  lemma {:induction false} LeadingDigitsStop(digits: string, rest: string, base: nat)
    requires AllDigits(digits, base) && (rest == "" || Digit(rest[0]) >= base)
    ensures LeadingDigits(digits + rest, base) == digits
  {
    if digits == "" {
      assert digits + rest == rest;
    } else {
      assert (digits + rest)[1..] == digits[1..] + rest;
      LeadingDigitsStop(digits[1..], rest, base);
    }
  }

  /** strtoull: None when there is nothing to convert. Too large values saturate, a minus sign
      negates modulo 2^64. */
  function Strtoull(s: string, base: nat): (r: Option<nat>)
    requires base == 10 || base == 16
    ensures r.Some? ==> r.value <= SIZE_MAX
  {
    var t := SkipSpaces(s);
    var signed := t != "" && (t[0] == '-' || t[0] == '+');
    var u := if signed then t[1..] else t;
    var prefixed := base == 16 && |u| > 2 && u[0] == '0' && (u[1] == 'x' || u[1] == 'X') && Digit(u[2]) < 16;
    var digits := LeadingDigits(if prefixed then u[2..] else u, base);
    if digits == "" then None
    else
      var v := Value(digits, base);
      if v > SIZE_MAX then Some(SIZE_MAX)
      else if t[0] == '-' && v > 0 then Some(SIZE_MAX + 1 - v)
      else Some(v)
  }

  /** A plain number is converted to its value. */
  lemma StrtoullPlain(digits: string, rest: string, base: nat)
    requires (base == 10 || base == 16) && digits != "" && AllDigits(digits, base)
    requires rest == "" || (Digit(rest[0]) >= base && rest[0] != 'x' && rest[0] != 'X')
    requires Value(digits, base) <= SIZE_MAX
    ensures Strtoull(digits + rest, base) == Some(Value(digits, base))
  {
    hide LeadingDigits, Value, AllDigits;
    var s := digits + rest;
    DigitAt(digits, base, 0);
    assert s[0] == digits[0];
    NotSpecial(digits[0], base);
    if |digits| > 1 {
      DigitAt(digits, base, 1);
      NotSpecial(digits[1], base);
      assert s[1] == digits[1];
    }
    assert SkipSpaces(s) == s;
    LeadingDigitsStop(digits, rest, base);
  }

  lemma DigitAt(digits: string, base: nat, i: nat)
    requires AllDigits(digits, base) && i < |digits|
    ensures Digit(digits[i]) < base
  {
  }

  lemma NotSpecial(c: char, base: nat)
    requires base <= 16 && Digit(c) < base
    ensures !IsSpace(c) && c != '-' && c != '+' && c != 'x' && c != 'X'
  {
  }

  datatype Scan = NoMatch | Match(value: int, rest: string)

  /** A C int made of a number of any size: scanf converts it to a long first, which saturates. */
  function ToInt(v: int): (r: int)
    ensures -0x8000_0000 <= v < 0x8000_0000 ==> r == v
  {
    var long :=
      if v > 0x7fff_ffff_ffff_ffff then 0x7fff_ffff_ffff_ffff
      else if v < -0x8000_0000_0000_0000 then -0x8000_0000_0000_0000
      else v;
    (long + 0x8000_0000) % 0x1_0000_0000 - 0x8000_0000
  }

  /** The conversion %d of sscanf. */
  function ScanInt(s: string): Scan {
    var t := SkipSpaces(s);
    var signed := t != "" && (t[0] == '-' || t[0] == '+');
    var u := if signed then t[1..] else t;
    var digits := LeadingDigits(u, 10);
    if digits == "" then NoMatch
    else Match(ToInt(if t[0] == '-' then 0 - Value(digits, 10) else Value(digits, 10)), u[|digits|..])
  }

  lemma ScanPlain(digits: string, rest: string)
    requires digits != "" && AllDigits(digits, 10) && (rest == "" || Digit(rest[0]) >= 10)
    ensures ScanInt(digits + rest) == Match(ToInt(Value(digits, 10)), rest)
  {
    hide LeadingDigits, Value, AllDigits;
    var s := digits + rest;
    DigitAt(digits, 10, 0);
    assert s[0] == digits[0];
    NotSpecial(digits[0], 10);
    LeadingDigitsStop(digits, rest, 10);
    assert s[|digits|..] == rest;
  }
}
