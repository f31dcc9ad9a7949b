/** The behaviour of the C and C++ library routines the driver leans on:
    `strrchr` and `std::string::find` (character search), `std::stoi`
    (number parsing) and printf's `%d` (number formatting). */
module Text {

  datatype Option<T> = None | Some(value: T)

  /** Bounds of a 32-bit C `int`. */
  const IntMin: int := -0x8000_0000
  const IntMax: int := 0x7FFF_FFFF

  predicate InIntRange(n: int) { IntMin <= n <= IntMax }

  predicate IsDigit(c: char) { '0' <= c <= '9' }

  /** `isspace` in the C locale: space, tab, line feed, vertical tab, form feed, carriage return. */
  predicate IsSpace(c: char) { c == ' ' || '\t' <= c <= '\r' }

  predicate AllDigits(s: string) { forall i :: 0 <= i < |s| ==> IsDigit(s[i]) }

  function DigitValue(c: char): (d: nat)
    requires IsDigit(c)
    ensures d < 10
  {
    c as int - '0' as int
  }

  function DigitChar(d: nat): (c: char)
    requires d < 10
    ensures IsDigit(c) && DigitValue(c) == d
  {
    ('0' as int + d) as char
  }

  /** The number a string of decimal digits denotes, most significant digit first. */
  function DigitsValue(s: string): nat
    requires AllDigits(s)
  {
    if s == [] then 0 else 10 * DigitsValue(s[..|s| - 1]) + DigitValue(s[|s| - 1])
  }

  /** The decimal spelling of `n` as printf writes it: digits only, no leading zero. */
  function NatToDecimal(n: nat): (r: string)
    ensures |r| > 0 && AllDigits(r)
    ensures DigitsValue(r) == n
    ensures r[0] == '0' ==> r == "0"
    decreases n
  {
    if n < 10 then [DigitChar(n)]
    else
      var prefix := NatToDecimal(n / 10);
      var r := prefix + [DigitChar(n % 10)];
      assert r[..|r| - 1] == prefix;
      assert r[0] == prefix[0];
      r
  }

  /** printf's `%d`: a minus sign for a negative value, then the digits of its magnitude. */
  function IntToDecimal(n: int): (r: string)
    ensures |r| > 0
    ensures r[0] == '-' <==> n < 0
    ensures n < 0 ==> |r| > 1 && AllDigits(r[1..])
    ensures n >= 0 ==> AllDigits(r)
  {
    if n < 0 then "-" + NatToDecimal(-n) else NatToDecimal(n)
  }

  /** The longest prefix of `s` made of digits. */
  function LeadingDigits(s: string): (r: string)
    ensures r <= s && AllDigits(r)
    ensures |r| == |s| || !IsDigit(s[|r|])
  {
    if s != [] && IsDigit(s[0]) then [s[0]] + LeadingDigits(s[1..]) else []
  }

  /** How many white-space characters `s` starts with. */
  function LeadingSpaces(s: string): (k: nat)
    ensures k <= |s|
    ensures forall i :: 0 <= i < k ==> IsSpace(s[i])
    ensures k == |s| || !IsSpace(s[k])
  {
    if s != [] && IsSpace(s[0]) then 1 + LeadingSpaces(s[1..]) else 0
  }

  /** The two exceptions `std::stoi` throws. */
  datatype StoiError = InvalidArgument | OutOfRange

  datatype StoiResult = Parsed(value: int) | Threw(error: StoiError)

  /** `std::stoi(s)` in base 10: leading white space is skipped, one optional
      sign is accepted, then the longest run of digits is read and whatever
      follows it is ignored. With no digit at that point it throws
      `invalid_argument`; a value outside the range of `int` throws
      `out_of_range`. */
  function Stoi(s: string): (r: StoiResult)
    ensures r.Parsed? ==> InIntRange(r.value)
  {
    StoiAfterSpaces(s[LeadingSpaces(s)..])
  }

  /** `stoi` from the first character that is not white space. */
  function StoiAfterSpaces(t: string): (r: StoiResult)
    ensures r.Parsed? ==> InIntRange(r.value)
  {
    var negative := t != [] && t[0] == '-';
    var unsigned := if t != [] && (t[0] == '-' || t[0] == '+') then t[1..] else t;
    var digits := LeadingDigits(unsigned);
    if digits == [] then Threw(InvalidArgument)
    else
      var magnitude: int := DigitsValue(digits);
      var v := if negative then -magnitude else magnitude;
      if InIntRange(v) then Parsed(v) else Threw(OutOfRange)
  }

  /** `std::string::find(c)`: the position of the first `c`, if any. */
  function FirstIndexOf(s: string, c: char): (r: Option<nat>)
    ensures r.None? <==> c !in s
    ensures r.Some? ==> r.value < |s| && s[r.value] == c && c !in s[..r.value]
  {
    if s == [] then None
    else if s[0] == c then Some(0)
    else match FirstIndexOf(s[1..], c)
      case None => None
      case Some(k) =>
        assert s[..k + 1] == [s[0]] + s[1..][..k];
        Some(k + 1)
  }

  /** `strrchr(s, c)`: the position of the last `c`, if any. */
  function LastIndexOf(s: string, c: char): (r: Option<nat>)
    ensures r.None? <==> c !in s
    ensures r.Some? ==> r.value < |s| && s[r.value] == c && c !in s[r.value + 1..]
  {
    if s == [] then None
    else if s[|s| - 1] == c then Some(|s| - 1)
    else
      var init := s[..|s| - 1];
      assert s == init + [s[|s| - 1]];
      match LastIndexOf(init, c)
      case None => None
      case Some(k) =>
        assert s[k + 1..] == init[k + 1..] + [s[|s| - 1]];
        Some(k)
  }

    /** A prefix of a prefix is a prefix. */
  lemma PrefixTransitive(a: string, b: string, c: string)
    requires a <= b && b <= c
    ensures a <= c
  {
    assert c[..|b|][..|a|] == c[..|a|];
  }

/** The first occurrence is the only position holding `c` with no `c` before it. */
  lemma FirstIndexUnique(s: string, c: char, k: nat)
    requires k < |s| && s[k] == c && c !in s[..k]
    ensures FirstIndexOf(s, c) == Some(k)
  {
    var r := FirstIndexOf(s, c);
    assert r.Some? by { assert s[k] in s; }
  }

  /** The last occurrence is the only position holding `c` with no `c` after it. */
  lemma LastIndexUnique(s: string, c: char, k: nat)
    requires k < |s| && s[k] == c && c !in s[k + 1..]
    ensures LastIndexOf(s, c) == Some(k)
  {
    var r := LastIndexOf(s, c);
    assert r.Some? by { assert s[k] in s; }
  }

  /** A string of digits followed by anything that does not start with a
      digit has exactly that string as its leading digits. */
  lemma {:induction false} LeadingDigitsOf(d: string, rest: string)
    requires AllDigits(d)
    requires rest == [] || !IsDigit(rest[0])
    ensures LeadingDigits(d + rest) == d
  {
    if d != [] {
      assert (d + rest)[1..] == d[1..] + rest;
      LeadingDigitsOf(d[1..], rest);
    } else {
      assert d + rest == rest;
    }
  }

  /** `stoi` reads a run of digits and ignores whatever non-digit text follows. */
  lemma StoiOfDigits(d: string, rest: string)
    requires d != [] && AllDigits(d)
    requires rest == [] || !IsDigit(rest[0])
    ensures Stoi(d + rest) == if DigitsValue(d) <= IntMax then Parsed(DigitsValue(d)) else Threw(OutOfRange)
  {
    var s := d + rest;
    assert !IsSpace(s[0]) && s[0] != '-' && s[0] != '+';
    assert LeadingSpaces(s) == 0;
    assert s[0..] == s;
    LeadingDigitsOf(d, rest);
  }

  /** `stoi` reads back what `%d` writes, for every value of an `int`. */
  lemma StoiOfDecimal(n: int)
    requires InIntRange(n)
    ensures Stoi(IntToDecimal(n)) == Parsed(n)
  {
    var s := IntToDecimal(n);
    assert LeadingSpaces(s) == 0;
    assert s[0..] == s;
    if n < 0 {
      var d := NatToDecimal(-n);
      assert s[1..] == d;
      LeadingDigitsOf(d, []);
      assert d + [] == d;
    } else {
      LeadingDigitsOf(s, []);
      assert s + [] == s;
    }
  }

  /** `stoi` skips a leading white-space character. */
  lemma StoiSkipsSpace(c: char, s: string)
    requires IsSpace(c)
    ensures Stoi([c] + s) == Stoi(s)
  {
    var cs := [c] + s;
    assert cs[1..] == s;
    assert LeadingSpaces(cs) == 1 + LeadingSpaces(s);
    assert cs[LeadingSpaces(cs)..] == s[LeadingSpaces(s)..];
  }

  /** Text that starts with neither white space nor a digit, and does not
      start with a sign followed by a digit, makes `stoi` throw
      `invalid_argument`: `""`, `"x"`, `"-"`, `"+x"`, `"-.5"`. */
  lemma StoiRejectsNonNumber(s: string)
    requires s == [] || (!IsSpace(s[0]) && !IsDigit(s[0]))
    requires |s| >= 1 && (s[0] == '-' || s[0] == '+') ==> |s| == 1 || !IsDigit(s[1])
    ensures Stoi(s) == Threw(InvalidArgument)
  {
    assert LeadingSpaces(s) == 0;
    assert s[0..] == s;
    if s != [] && (s[0] == '-' || s[0] == '+') {
      var u := s[1..];
      assert u == [] || !IsDigit(u[0]);
    }
  }

  /** A sign, a run of digits and anything that does not start with a digit:
      `stoi` gives the signed value of the digits, or throws `out_of_range`
      when it does not fit in an `int`. */
  lemma StoiOfSigned(sign: char, d: string, rest: string)
    requires sign == '-' || sign == '+'
    requires d != [] && AllDigits(d)
    requires rest == [] || !IsDigit(rest[0])
    ensures sign == '-' ==>
      Stoi([sign] + (d + rest)) == if DigitsValue(d) <= -IntMin then Parsed(0 - DigitsValue(d)) else Threw(OutOfRange)
    ensures sign == '+' ==>
      Stoi([sign] + (d + rest)) == if DigitsValue(d) <= IntMax then Parsed(DigitsValue(d)) else Threw(OutOfRange)
  {
    if sign == '-' {
      StoiOfNegative(d, rest);
    } else {
      StoiOfPlus(d, rest);
    }
  }

  /** A sign is read once, and the digits after it decide the result. */
  lemma StoiAfterSign(sign: char, t: string)
    requires sign == '-' || sign == '+'
    ensures var digits := LeadingDigits(t);
      var m: int := if digits == [] then 0 else DigitsValue(digits);
      var fits := if sign == '-' then m <= -IntMin else m <= IntMax;
      Stoi([sign] + t) ==
        if digits == [] then Threw(InvalidArgument)
        else if !fits then Threw(OutOfRange)
        else if sign == '-' then Parsed(0 - m) else Parsed(m)
  {
    var s := [sign] + t;
    assert s[0] == sign && s[1..] == t;
    assert LeadingSpaces(s) == 0;
    assert s[0..] == s;
  }

  /** `'-'` and digits: the negated value of the digits. */
  lemma StoiOfNegative(d: string, rest: string)
    requires d != [] && AllDigits(d)
    requires rest == [] || !IsDigit(rest[0])
    ensures Stoi(['-'] + (d + rest)) == if DigitsValue(d) <= -IntMin then Parsed(0 - DigitsValue(d)) else Threw(OutOfRange)
  {
    LeadingDigitsOf(d, rest);
    StoiAfterSign('-', d + rest);
  }

  /** `'+'` and digits: the value of the digits. */
  lemma StoiOfPlus(d: string, rest: string)
    requires d != [] && AllDigits(d)
    requires rest == [] || !IsDigit(rest[0])
    ensures Stoi(['+'] + (d + rest)) == if DigitsValue(d) <= IntMax then Parsed(DigitsValue(d)) else Threw(OutOfRange)
  {
    LeadingDigitsOf(d, rest);
    StoiAfterSign('+', d + rest);
  }

  /** A sign with no digit after it throws. */
  lemma SignExamples()
    ensures Stoi("-") == Threw(InvalidArgument)
    ensures Stoi("-.5") == Threw(InvalidArgument)
  {
    var minus, dotFive := "-", "-.5";
    assert dotFive[1] == '.';
    StoiRejectsNonNumber(minus);
    StoiRejectsNonNumber(dotFive);
  }

  /** A signed number after white space is read, up to the first non-digit. */
  lemma SignedAfterSpaceExample()
    ensures Stoi(" -12x") == Parsed(-12)
  {
    var s, d, x := " -12x", "12", "x";
    assert d[..1] == "1" && d[..1][..0] == [];
    assert DigitsValue(d) == 12;
    StoiOfSigned('-', d, x);
    var signed := ['-'] + (d + x);
    assert s == [' '] + signed;
    StoiSkipsSpace(' ', signed);
  }
}
