/** Decimal text of integers, as the C library's `atoi` reads it and as
    `snprintf(buffer, size, "%d", x)` writes it. */
module Conversions {

  const NUL: char := 0 as char

  predicate IsDigit(c: char) {
    '0' <= c <= '9'
  }

  function DigitChar(d: nat): (c: char)
    requires d < 10
    ensures IsDigit(c) && DigitValue(c) == d
  {
    (48 + d) as char
  }

  /** The value of a digit character (meaningful for digits only). */
  function DigitValue(c: char): int {
    c as int - 48
  }

  predicate AllDigits(s: seq<char>) {
    forall i :: 0 <= i < |s| ==> IsDigit(s[i])
  }

  /** The decimal digits of `n`, most significant first, without leading zeros. */
  function Decimal(n: nat): (s: seq<char>)
    ensures |s| >= 1
  {
    if n < 10 then [DigitChar(n)] else Decimal(n / 10) + [DigitChar(n % 10)]
  }

  /** What `%d` prints: a minus sign for negative values, then the digits. */
  function FormatInt(x: int): (s: seq<char>)
  {
    if x < 0 then ['-'] + Decimal(-x) else Decimal(x)
  }

  /** The longest prefix of `s` made of decimal digits. */
  function LeadingDigits(s: seq<char>): seq<char> {
    if s == [] || !IsDigit(s[0]) then [] else [s[0]] + LeadingDigits(s[1..])
  }

  /** The value of a digit string, read most significant digit first. */
  function DigitsValue(ds: seq<char>): int {
    if ds == [] then 0 else DigitsValue(ds[..|ds| - 1]) * 10 + DigitValue(ds[|ds| - 1])
  }

  /** `atoi`: an optional sign, then the longest run of digits; no digits gives 0.
      Leading white space and overflow are not modelled. */
  function Atoi(s: seq<char>): int
  {
    if |s| > 0 && s[0] == '-' then -DigitsValue(LeadingDigits(s[1..]))
    else if |s| > 0 && s[0] == '+' then DigitsValue(LeadingDigits(s[1..]))
    else DigitsValue(LeadingDigits(s))
  }

  /** A string `atoi` reads as a number: a digit first, or a sign followed by a digit. */
  predicate IsNumeric(s: seq<char>) {
    |s| > 0 &&
    (IsDigit(s[0]) || ((s[0] == '-' || s[0] == '+') && |s| > 1 && IsDigit(s[1])))
  }

  lemma AtoiNonNumeric(s: seq<char>)
    requires !IsNumeric(s)
    ensures Atoi(s) == 0
  {
  }

  lemma {:induction false} DecimalDigits(n: nat)
    ensures AllDigits(Decimal(n))
  {
    if n >= 10 {
      DecimalDigits(n / 10);
    }
  }

  lemma {:induction false} DecimalValue(n: nat)
    ensures DigitsValue(Decimal(n)) == n
  {
    if n >= 10 {
      var d := Decimal(n);
      assert d[..|d| - 1] == Decimal(n / 10);
      DecimalValue(n / 10);
    }
  }

  lemma {:induction false} LeadingDigitsOfDigits(s: seq<char>)
    requires AllDigits(s)
    ensures LeadingDigits(s) == s
  {
    if s != [] {
      LeadingDigitsOfDigits(s[1..]);
    }
  }

  /** `atoi` reads back exactly what `%d` prints. */
  lemma AtoiFormatInt(x: int)
    ensures Atoi(FormatInt(x)) == x
  {
    var d := if x < 0 then Decimal(-x) else Decimal(x);
    DecimalDigits(if x < 0 then -x else x);
    LeadingDigitsOfDigits(d);
    if x < 0 {
      assert FormatInt(x)[1..] == d;
      DecimalValue(-x);
    } else {
      DecimalValue(x);
    }
  }

  lemma {:induction false} DecimalNoLeadingZero(n: nat)
    requires n > 0
    ensures Decimal(n)[0] != '0'
  {
    if n >= 10 {
      DecimalNoLeadingZero(n / 10);
    }
  }

  lemma DecimalLength(n: nat)
    ensures n < 10 <==> |Decimal(n)| == 1
    ensures 10 <= n < 100 <==> |Decimal(n)| == 2
  {
    if n >= 100 {
      DecimalAtLeastThree(n);
    }
  }

  lemma DecimalAtLeastThree(n: nat)
    requires n >= 100
    ensures |Decimal(n)| >= 3
  {
  }

  /** `snprintf(buffer, buffer.Length, "%d", x)`: stores at most buffer.Length - 1
      characters of the text followed by a NUL, leaves the cells after the NUL
      as they were, and returns the length of the whole text, whether or not
      it fit. */
  method Snprintf(buffer: array<char>, x: int) returns (n: int)
    requires buffer.Length >= 1
    modifies buffer
    ensures n == |FormatInt(x)|
    ensures var kept := if n < buffer.Length then n else buffer.Length - 1;
            buffer[..kept] == FormatInt(x)[..kept] && buffer[kept] == NUL
    ensures var kept := if n < buffer.Length then n else buffer.Length - 1;
            buffer[kept + 1..] == old(buffer[kept + 1..])
  {
    var text := FormatInt(x);
    n := |text|;
    var kept := if n < buffer.Length then n else buffer.Length - 1;
    var i := 0;
    while i < kept
      invariant 0 <= i <= kept
      invariant buffer[..i] == text[..i]
      invariant buffer[i..] == old(buffer[i..])
    {
      buffer[i] := text[i];
      i := i + 1;
    }
    buffer[kept] := NUL;
  }
}
