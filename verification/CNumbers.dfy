/** Numbers as text: what the conversions of CText make of a number that was printed in base 10
    or 16. */
module CNumbers {
  import opened CText

  /** c is the digit of value v, in either case. */
  predicate IsDigitOf(c: char, v: int) {
    if 0 <= v < 10 then c as int == '0' as int + v
    else 10 <= v < 16 && (c as int == 'a' as int + v - 10 || c as int == 'A' as int + v - 10)
  }

  /** s is n written in the base, maybe with zeros in front: the last digit is the remainder of n,
      what stands before it is its quotient. */
  predicate Denotes(s: string, n: nat, base: nat)
    requires base == 10 || base == 16
    decreases |s|
  {
    && s != "" && IsDigitOf(s[|s| - 1], n % base)
    && if |s| == 1 then n < base else Denotes(s[..|s| - 1], n / base, base)
  }

  /** %zu, and %zx for base 16. */
  function Printed(n: nat, base: nat): (s: string)
    requires base == 10 || base == 16
  {
    var v := n % base;
    var digit := (if v < 10 then '0' as int + v else 'a' as int + v - 10) as char;
    (if n < base then "" else Printed(n / base, base)) + [digit]
  }

  lemma {:induction false} PrintedDenotes(n: nat, base: nat)
    requires base == 10 || base == 16
    ensures Denotes(Printed(n, base), n, base)
  {
    if n >= base {
      PrintedDenotes(n / base, base);
      var s := Printed(n, base);
      assert s[..|s| - 1] == Printed(n / base, base);
    }
  }

  lemma DigitIs(c: char, v: int, base: nat)
    requires base == 10 || base == 16
    ensures 0 <= v < base && IsDigitOf(c, v) <==> Digit(c) == v && Digit(c) < base
  {
  }

  /** A written number is made of digits and has the value it was written for; and all digits are
      some written number. */
  lemma {:induction false} DenotesValue(s: string, n: nat, base: nat)
    requires base == 10 || base == 16
    ensures Denotes(s, n, base) <==> s != "" && AllDigits(s, base) && Value(s, base) == n
    decreases |s|
  {
    if s != "" {
      var init, last := s[..|s| - 1], s[|s| - 1];
      assert s == init + [last];
      DigitIs(last, n % base, base);
      AllDigitsLast(init, last, base);
      if init == "" {
        assert Value(s, base) == Digit(last);
      } else {
        DenotesValue(init, n / base, base);
        Remainder(Value(init, base), Digit(last), n, base);
      }
    }
  }

  lemma AllDigitsLast(init: string, last: char, base: nat)
    ensures AllDigits(init + [last], base) <==> AllDigits(init, base) && Digit(last) < base
  {
    assert forall c <- init :: c in init + [last];
    assert last in init + [last];
  }

  lemma Remainder(q: nat, d: nat, n: nat, base: nat)
    requires base == 10 || base == 16
    ensures d < base ==> (q * base + d == n <==> q == n / base && d == n % base)
  {
    if base == 10 {
      assert q * base == q * 10;
    } else {
      assert q * base == q * 16;
    }
  }

  predicate WhiteSpace(c: char) {
    c == ' ' || c == '\t' || c == '\n' || c == '\r' || c as int == 11 || c as int == 12
  }

  predicate HexOrDigit(c: char, base: nat) {
    || '0' <= c <= '9'
    || (base == 16 && ('a' <= c <= 'f' || 'A' <= c <= 'F'))
  }

  lemma {:induction false} SpacesSkipped(spaces: string, rest: string)
    requires forall c <- spaces :: WhiteSpace(c)
    requires rest == "" || !WhiteSpace(rest[0])
    ensures SkipSpaces(spaces + rest) == rest
  {
    if spaces == "" {
      assert spaces + rest == rest;
    } else {
      assert spaces[0] in spaces;
      assert (spaces + rest)[1..] == spaces[1..] + rest;
      SpacesSkipped(spaces[1..], rest);
    }
  }

  /** strtoull on blanks, a sign, "0x", a written number, and anything that cannot continue it: the
      number; at most 2^64 - 1; and modulo 2^64 if there is a minus sign. */
  lemma StrtoullRead(spaces: string, sign: string, prefix: string, digits: string, rest: string, n: nat, base: nat)
    requires base == 10 || base == 16
    requires (forall c <- spaces :: WhiteSpace(c)) && (sign == "" || sign == "+" || sign == "-")
    requires prefix == "" || (base == 16 && (prefix == "0x" || prefix == "0X"))
    requires Denotes(digits, n, base)
    requires rest == "" || (!HexOrDigit(rest[0], base) && (prefix == "" ==> rest[0] != 'x' && rest[0] != 'X'))
    ensures Strtoull(spaces + sign + prefix + digits + rest, base)
         == Some(if n >= 0x1_0000_0000_0000_0000 then 0xffff_ffff_ffff_ffff
                 else if sign == "-" && n > 0 then 0x1_0000_0000_0000_0000 - n
                 else n)
  {
    hide *;
    DenotesValue(digits, n, base);
    DigitAt(digits, base, 0);
    var number := digits + rest;
    var u := prefix + number;
    var t := sign + u;
    Regroup(spaces, sign, prefix, digits, rest);
    StartsNumber(sign, prefix, number, base);
    SpacesSkipped(spaces, t);
    NotContinued(rest, base);
    LeadingDigitsStop(digits, rest, base);
    if prefix == "" {
      assert u == number;
      NoPrefix(digits, rest, base);
    } else {
      assert u[2..] == number;
    }
    StrtoullOf(spaces + t, t, u, digits, base);
  }

  lemma Regroup(a: string, b: string, c: string, d: string, e: string)
    ensures a + b + c + d + e == a + (b + (c + (d + e)))
  {
  }

  lemma NotContinued(rest: string, base: nat)
    requires base == 10 || base == 16
    requires rest == "" || !HexOrDigit(rest[0], base)
    ensures rest == "" || Digit(rest[0]) >= base
  {
  }

  lemma StrtoullOf(s: string, t: string, u: string, digits: string, base: nat)
    requires (base == 10 || base == 16) && t != "" && SkipSpaces(s) == t && digits != ""
    requires u == if t[0] == '-' || t[0] == '+' then t[1..] else t
    requires digits == LeadingDigits(
        if base == 16 && |u| > 2 && u[0] == '0' && (u[1] == 'x' || u[1] == 'X') && Digit(u[2]) < 16 then u[2..] else u,
        base)
    ensures var v := Value(digits, base);
      Strtoull(s, base)
      == Some(if v > 0xffff_ffff_ffff_ffff then 0xffff_ffff_ffff_ffff
              else if t[0] == '-' && v > 0 then 0x1_0000_0000_0000_0000 - v
              else v)
  {
    hide SkipSpaces, LeadingDigits, Value, Digit;
  }

  lemma StartsNumber(sign: string, prefix: string, number: string, base: nat)
    requires sign == "" || sign == "+" || sign == "-"
    requires prefix == "" || (base == 16 && (prefix == "0x" || prefix == "0X"))
    requires number != "" && Digit(number[0]) < base && base <= 16
    ensures var t := sign + (prefix + number);
      && t != "" && !WhiteSpace(t[0]) && (t[0] == '-' <==> sign == "-") && (t[0] == '+' <==> sign == "+")
      && (if t[0] == '-' || t[0] == '+' then t[1..] else t) == prefix + number
      && (prefix != "" ==> (prefix + number)[2] == number[0] && (prefix + number)[0] == '0'
                           && (prefix + number)[1] == prefix[1] && |prefix + number| > 2)
  {
  }

  lemma NoPrefix(digits: string, rest: string, base: nat)
    requires digits != "" && AllDigits(digits, base) && base <= 16
    requires rest == "" || (rest[0] != 'x' && rest[0] != 'X')
    ensures |digits + rest| > 1 ==> (digits + rest)[1] != 'x' && (digits + rest)[1] != 'X'
  {
    if |digits| > 1 {
      DigitAt(digits, base, 1);
      NotSpecial(digits[1], base);
    }
  }

  /** %d of sscanf on blanks, a sign and a written number. */
  lemma ScanRead(spaces: string, sign: string, digits: string, rest: string, n: nat)
    requires (forall c <- spaces :: WhiteSpace(c)) && (sign == "" || sign == "+" || sign == "-")
    requires Denotes(digits, n, 10) && n < 0x8000_0000 && (rest == "" || !HexOrDigit(rest[0], 10))
    ensures ScanInt(spaces + sign + digits + rest) == Match(if sign == "-" then 0 - n else n, rest)
  {
    hide *;
    DenotesValue(digits, n, 10);
    DigitAt(digits, 10, 0);
    var number := digits + rest;
    var t := sign + number;
    RegroupFour(spaces, sign, digits, rest);
    StartsNumber(sign, "", number, 10);
    SpacesSkipped(spaces, t);
    NotContinued(rest, 10);
    LeadingDigitsStop(digits, rest, 10);
    ScanIntOf(spaces + t, t, number, digits, rest);
  }

  lemma RegroupFour(a: string, b: string, c: string, d: string)
    ensures a + b + c + d == a + (b + (c + d)) && "" + (c + d) == c + d
  {
  }

  lemma ScanIntOf(s: string, t: string, u: string, digits: string, rest: string)
    requires t != "" && SkipSpaces(s) == t && digits != ""
    requires u == if t[0] == '-' || t[0] == '+' then t[1..] else t
    requires u == digits + rest && digits == LeadingDigits(u, 10) && Value(digits, 10) < 0x8000_0000
    ensures ScanInt(s) == Match(if t[0] == '-' then 0 - Value(digits, 10) else Value(digits, 10), rest)
  {
    hide SkipSpaces, LeadingDigits, Value;
  }

  // ---- no number ----

  predicate NoDigits(s: string) {
    forall i :: 0 <= i < |s| ==> !('0' <= s[i] <= '9')
  }

  lemma FirstIsNoDigit(s: string)
    requires NoDigits(s)
    ensures s == "" || Digit(s[0]) >= 10
  {
  }

  lemma {:induction false} SkipKeeps(s: string)
    requires NoDigits(s)
    ensures NoDigits(SkipSpaces(s))
  {
    if s != "" { SkipKeeps(s[1..]); }
  }

  lemma NothingToScan(s: string)
    requires NoDigits(s)
    ensures ScanInt(s) == NoMatch
  {
    hide SkipSpaces;
    SkipKeeps(s);
    var t := SkipSpaces(s);
    var u := if t != "" && (t[0] == '-' || t[0] == '+') then t[1..] else t;
    FirstIsNoDigit(u);
    assert LeadingDigits(u, 10) == "";
  }
}
