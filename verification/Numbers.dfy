/** Decimal and hexadecimal text, and the 64-bit limits it runs into. */
module Numbers {
  import opened Strings

  const INT64_MAX := 0x7FFF_FFFF_FFFF_FFFF
  const INT64_MIN := -0x8000_0000_0000_0000

  predicate InInt64(x: int) { INT64_MIN <= x <= INT64_MAX }

  predicate AllDigits(s: string) {
    forall i :: 0 <= i < |s| ==> IsDigit(s[i])
  }

  /** Decimal text, as to_string writes it. */
  function Decimal(n: nat): (s: string)
    ensures s != "" && AllDigits(s)
  {
    var last := [('0' as int + n % 10) as char];
    if n < 10 then last else Decimal(n / 10) + last
  }

  /** The number a digit string spells. */
  function Value(s: string): nat
    requires AllDigits(s)
  {
    if s == "" then 0 else 10 * Value(s[..|s| - 1]) + (s[|s| - 1] as int - '0' as int)
  }

  lemma {:induction false} ValueOfDecimal(n: nat)
    ensures Value(Decimal(n)) == n
  {
    var s := Decimal(n);
    if n >= 10 {
      ValueOfDecimal(n / 10);
      assert s[..|s| - 1] == Decimal(n / 10);
    } else {
      assert s[..0] == "";
    }
  }

  predicate IsSpace(c: char) {
    c == ' ' || c == '\t' || c == '\n' || c == '\r' || c == 11 as char || c == 12 as char
  }

  function SkipSpaces(s: string): string {
    if s != "" && IsSpace(s[0]) then SkipSpaces(s[1..]) else s
  }

  /** The digits at the start of a string. */
  function DigitPrefix(s: string): (p: string)
    ensures AllDigits(p) && p <= s
    ensures |p| < |s| ==> !IsDigit(s[|p|])
  {
    if s != "" && IsDigit(s[0]) then [s[0]] + DigitPrefix(s[1..]) else ""
  }

  /** std::stoll: white space, an optional sign, digits; what follows is ignored. None when it
      throws, for want of a digit or for a number that does not fit. */
  function Stoll(s: string): (r: Option<int>)
    ensures r.Some? ==> InInt64(r.value)
  {
    var t := SkipSpaces(s);
    var negative := t != "" && t[0] == '-';
    var digits := DigitPrefix(if t != "" && (t[0] == '-' || t[0] == '+') then t[1..] else t);
    var v: int := Value(digits);
    var value := if negative then -v else v;
    if digits == "" || !InInt64(value) then None else Some(value)
  }

  lemma {:induction false} WholePrefix(s: string)
    requires AllDigits(s)
    ensures DigitPrefix(s) == s
  {
  }

  lemma {:induction false} SpacesSkipped(blanks: string, rest: string)
    requires forall c <- blanks :: IsSpace(c)
    requires rest == "" || !IsSpace(rest[0])
    ensures SkipSpaces(blanks + rest) == rest
    decreases |blanks|
  {
    if blanks == "" {
      assert blanks + rest == rest;
    } else {
      assert blanks[0] in blanks;
      assert (blanks + rest)[1..] == blanks[1..] + rest;
      SpacesSkipped(blanks[1..], rest);
    }
  }

  lemma {:induction false} DigitsTaken(digits: string, rest: string)
    requires AllDigits(digits) && (rest == "" || !IsDigit(rest[0]))
    ensures DigitPrefix(digits + rest) == digits
    decreases |digits|
  {
    if digits == "" {
      assert digits + rest == rest;
    } else {
      assert (digits + rest)[1..] == digits[1..] + rest;
      DigitsTaken(digits[1..], rest);
    }
  }

  /** The number every text stands for: white space of the six kinds, a sign or none, digits, and anything
      else. It cannot be read if there are no digits, or if it does not fit. */
  lemma StollOfText(blanks: string, sign: string, digits: string, rest: string)
    requires forall c <- blanks :: c in {' ', '\t', '\n', 11 as char, 12 as char, '\r'}
    requires sign == "" || sign == "+" || sign == "-"
    requires AllDigits(digits) && (rest == "" || !IsDigit(rest[0]))
    requires sign == "" && digits == "" && rest != "" ==>
               rest[0] !in {' ', '\t', '\n', 11 as char, 12 as char, '\r', '+', '-'}
    ensures var v: int := if sign == "-" then -(Value(digits) as int) else Value(digits);
            Stoll(blanks + (sign + (digits + rest))) == if digits == "" || !InInt64(v) then None else Some(v)
  {
    hide SkipSpaces, DigitPrefix, Value;
    var number := digits + rest;
    var t := sign + number;
    SpacesSkipped(blanks, t);
    DigitsTaken(digits, rest);
    if sign == "" {
      assert t == number;
    } else {
      assert t[0] == sign[0] && t[1..] == number;
    }
  }

  lemma StollOfNegative(n: nat)
    ensures var v: int := n; Stoll("-" + Decimal(n)) == if n <= -INT64_MIN then Some(-v) else None
  {
    var s := Decimal(n);
    assert ("-" + s)[1..] == s;
    assert SkipSpaces("-" + s) == "-" + s;
    WholePrefix(s);
    ValueOfDecimal(n);
  }

  /** Reading back a printed number gives the number, unless it is too large for 64 bits. */
  lemma StollOfDecimal(n: nat)
    ensures Stoll(Decimal(n)) == if n <= INT64_MAX then Some(n) else None
  {
    var s := Decimal(n);
    assert IsDigit(s[0]);
    assert SkipSpaces(s) == s;
    WholePrefix(s);
    ValueOfDecimal(n);
  }

  // ---- hexadecimal ----

  function HexDigit(d: nat): (c: char)
    requires d < 16
    ensures '0' <= c <= '9' || 'a' <= c <= 'f'
  {
    if d < 10 then ('0' as int + d) as char else ('a' as int + d - 10) as char
  }

  predicate IsHexDigit(c: char) { '0' <= c <= '9' || 'a' <= c <= 'f' || 'A' <= c <= 'F' }

  function HexDigitValue(c: char): (v: nat)
    requires IsHexDigit(c)
    ensures v < 16
  {
    if c <= '9' then c as int - '0' as int
    else if c <= 'F' then c as int - 'A' as int + 10
    else c as int - 'a' as int + 10
  }

  predicate AllHex(s: string) {
    forall i :: 0 <= i < |s| ==> IsHexDigit(s[i])
  }

  /** Hexadecimal text, as printf's %zx writes it. */
  function Hex(n: nat): (s: string)
    ensures s != "" && AllHex(s)
  {
    var last := [HexDigit(n % 16)];
    if n < 16 then last else Hex(n / 16) + last
  }

  function HexValue(s: string): nat
    requires AllHex(s)
  {
    if s == "" then 0 else 16 * HexValue(s[..|s| - 1]) + HexDigitValue(s[|s| - 1])
  }

  lemma {:induction false} ValueOfHex(n: nat)
    ensures HexValue(Hex(n)) == n
  {
    var s := Hex(n);
    if n >= 16 {
      ValueOfHex(n / 16);
      assert s[..|s| - 1] == Hex(n / 16);
    } else {
      assert s[..0] == "";
    }
  }

  lemma {:induction false} HexIsShort(n: nat)
    requires n >= 1
    ensures |Hex(n)| <= n
  {
    if n >= 16 { HexIsShort(n / 16); }
  }

  function Pow16(k: nat): nat { if k == 0 then 1 else 16 * Pow16(k - 1) }

  /** A number below 16 to the k takes at most k hexadecimal digits: 16 of them for a 64-bit size. */
  lemma {:induction false} HexFits(n: nat, k: nat)
    requires k >= 1 && n < Pow16(k)
    ensures |Hex(n)| <= k
  {
    if n >= 16 { HexFits(n / 16, k - 1); }
  }
}
