/** Printing and reading decimal numbers: std::to_string and atoi. */
module Numbers {
  import opened Prelude
  import opened HttpText
  import opened TextLaws

  const INT_MIN: int := -0x8000_0000
  const INT_MAX: int := 0x7fff_ffff
  const LONG_MIN: int := -0x8000_0000_0000_0000
  const LONG_MAX: int := 0x7fff_ffff_ffff_ffff

  predicate IsDigit(c: char) { '0' <= c <= '9' }

  function Digit(d: nat): (c: char)
    requires d < 10
    ensures IsDigit(c)
  {
    (d + '0' as int) as char
  }

  function Value(c: char): nat
    requires IsDigit(c)
  {
    c as int - '0' as int
  }

  /** The decimal digits of n. */
  function Decimal(n: nat): (s: string)
    ensures s != [] && forall i :: 0 <= i < |s| ==> IsDigit(s[i])
  {
    (if n < 10 then [] else Decimal(n / 10)) + [Digit(n % 10)]
  }

  /** std::to_string */
  function ToString(x: int): string {
    if x < 0 then ['-'] + Decimal(-x) else Decimal(x)
  }

  /** How many characters from the front are digits. */
  function DigitCount(s: string): (n: nat)
    ensures n <= |s| && forall i :: 0 <= i < n ==> IsDigit(s[i])
    ensures n < |s| ==> !IsDigit(s[n])
  {
    if s != [] && IsDigit(s[0]) then 1 + DigitCount(s[1..]) else 0
  }

  function DigitsValue(s: string): nat
    requires forall i :: 0 <= i < |s| ==> IsDigit(s[i])
  {
    if s == [] then 0 else 10 * DigitsValue(s[..|s| - 1]) + Value(s[|s| - 1])
  }

  /** The low 32 bits as a signed number. */
  function ToInt32(x: int): (r: int)
    ensures INT_MIN <= r <= INT_MAX
  {
    var m := x % 0x1_0000_0000;
    if m > INT_MAX then m - 0x1_0000_0000 else m
  }

  /** The value of the digits that a string begins with. */
  function Leading(u: string): nat { DigitsValue(u[..DigitCount(u)]) }

  function Saturate(x: int): int {
    if x < LONG_MIN then LONG_MIN else if x > LONG_MAX then LONG_MAX else x
  }

  /** strtol in base 10: white space, a sign, digits; the value saturates. */
  function Strtol(s: string): int {
    var t := SkipSpace(s);
    if t != [] && t[0] == '-' then Saturate(0 - Leading(t[1..]))
    else if t != [] && t[0] == '+' then Saturate(Leading(t[1..]))
    else Saturate(Leading(t))
  }

  /** atoi: the long is cut to an int. */
  function Atoi(s: string): (r: int)
    ensures INT_MIN <= r <= INT_MAX
  {
    ToInt32(Strtol(s))
  }

  lemma {:induction false} DecimalValue(n: nat)
    ensures DigitsValue(Decimal(n)) == n
  {
    var s := Decimal(n);
    assert s[..|s| - 1] == if n < 10 then [] else Decimal(n / 10);
    assert Value(s[|s| - 1]) == n % 10;
    if n >= 10 {
      DecimalValue(n / 10);
    }
  }

  lemma {:induction false} DigitsBefore(s: string, rest: string)
    requires forall i :: 0 <= i < |s| ==> IsDigit(s[i])
    requires rest == [] || !IsDigit(rest[0])
    ensures DigitCount(s + rest) == |s|
  {
    if s == [] {
      assert s + rest == rest;
    } else {
      assert (s + rest)[1..] == s[1..] + rest;
      DigitsBefore(s[1..], rest);
    }
  }

  /** Digits in front of something that is not a digit are read as a number. */
  lemma ReadDigits(n: nat, rest: string)
    requires rest == [] || !IsDigit(rest[0])
    ensures Leading(Decimal(n) + rest) == n
  {
    DecimalValue(n);
    DigitsBefore(Decimal(n), rest);
    assert (Decimal(n) + rest)[..|Decimal(n)|] == Decimal(n);
  }

  lemma Int32Same(x: int)
    requires INT_MIN <= x <= INT_MAX
    ensures ToInt32(x) == x
  {
  }

  /** What is neither white nor a sign in front is read as it stands. */
  lemma StrtolDigits(u: string)
    requires u != [] && IsDigit(u[0])
    ensures Strtol(u) == Saturate(Leading(u)) && Strtol(['-'] + u) == Saturate(0 - Leading(u))
  {
  }

  lemma StrtolToString(x: int, rest: string)
    requires INT_MIN <= x <= INT_MAX
    requires rest == [] || !IsDigit(rest[0])
    ensures Strtol(ToString(x) + rest) == x
  {
    var n := if x < 0 then -x else x;
    var u := Decimal(n) + rest;
    ReadDigits(n, rest);
    assert u[0] == Decimal(n)[0];
    StrtolDigits(u);
    assert x < 0 ==> ToString(x) + rest == ['-'] + u;
  }

  /** atoi reads back an int that to_string printed, whatever follows that is not a
      digit. */
  lemma AtoiToString(x: int, rest: string)
    requires INT_MIN <= x <= INT_MAX
    requires rest == [] || !IsDigit(rest[0])
    ensures Atoi(ToString(x) + rest) == x
  {
    StrtolToString(x, rest);
    Int32Same(x);
  }

  // ----- what any text is read as

  predicate AllDigits(s: string) { forall i :: 0 <= i < |s| ==> '0' <= s[i] <= '9' }

  /** Every text of digits is a printed number behind zeros, and denotes that number. */
  lemma {:induction false} DigitsCanonical(s: string) returns (zeros: nat)
    requires s != "" && AllDigits(s)
    ensures s == Repeat('0', zeros) + Decimal(DigitsValue(s))
  {
    var front, last := s[..|s| - 1], s[|s| - 1];
    assert Digit(Value(last)) == last;
    if front == "" {
      zeros := 0;
      assert DigitsValue(s) == Value(last);
      assert s == [last] && Decimal(Value(last)) == [] + [last];
    } else {
      zeros := DigitsCanonical(front);
      var n := DigitsValue(front);
      assert s == front + [last];
      DecimalMore(n, Value(last));
      if n == 0 {
        assert Repeat('0', zeros) + Decimal(0) == Repeat('0', zeros + 1);
        zeros := zeros + 1;
      }
    }
  }

  lemma DecimalMore(n: nat, d: nat)
    requires d < 10
    ensures Decimal(10 * n + d) == (if n == 0 then [] else Decimal(n)) + [Digit(d)]
  {
  }

  /** n, but no further than a long reaches. */
  function Clamped(n: int): int {
    if n < -0x8000_0000_0000_0000 then -0x8000_0000_0000_0000
    else if n > 0x7fff_ffff_ffff_ffff then 0x7fff_ffff_ffff_ffff else n
  }

  /** atoi on white space, a sign, digits and whatever follows them: the int that agrees
      with the clamped number in its low 32 bits; 0 if there are no digits. */
  lemma AtoiMeans(w: string, sign: string, digits: string, rest: string)
    requires White(w) && (sign == "" || sign == "+" || sign == "-") && AllDigits(digits)
    requires rest != "" ==> !('0' <= rest[0] <= '9')
    requires sign == "" && digits == "" ==> Visible(rest) && (rest != "" ==> rest[0] != '+' && rest[0] != '-')
    ensures var r, v: int := Atoi(w + (sign + (digits + rest))), DigitsValue(digits);
      var n := if sign == "-" then -v else v;
      -0x8000_0000 <= r <= 0x7fff_ffff && (r - Clamped(n)) % 0x1_0000_0000 == 0
  {
    var u := digits + rest;
    SignedVisible(sign, digits, rest);
    SkipWhite(w, sign + u);
    StrtolMeans(w + (sign + u), sign, u);
    LeadingDigits(digits, rest, u);
    SameLowBits(Strtol(w + (sign + u)));
  }

  lemma LeadingDigits(digits: string, rest: string, u: string)
    requires AllDigits(digits) && (rest != "" ==> !('0' <= rest[0] <= '9')) && u == digits + rest
    ensures Leading(u) == DigitsValue(digits)
  {
    DigitsBefore(digits, rest);
    assert u[..|digits|] == digits;
  }

  lemma StrtolMeans(s: string, sign: string, u: string)
    requires SkipSpace(s) == sign + u && (sign == "" || sign == "+" || sign == "-")
    requires sign == "" && u != "" ==> u[0] != '+' && u[0] != '-'
    ensures Strtol(s) == Clamped(if sign == "-" then 0 - Leading(u) else Leading(u))
  {
    if sign == "" {
      assert sign + u == u;
    } else {
      assert (sign + u)[0] == sign[0] && (sign + u)[1..] == u;
    }
  }

  lemma SignedVisible(sign: string, digits: string, rest: string)
    requires (sign == "" || sign == "+" || sign == "-") && AllDigits(digits)
    requires sign == "" && digits == "" ==> Visible(rest) && (rest != "" ==> rest[0] != '+' && rest[0] != '-')
    ensures Visible(sign + (digits + rest))
    ensures sign == "" ==> var u := digits + rest; u != "" ==> u[0] != '+' && u[0] != '-'
  {
  }

  lemma SameLowBits(x: int)
    ensures (ToInt32(x) - x) % 0x1_0000_0000 == 0
  {
  }
}
