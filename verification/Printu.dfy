/** Number printing of printu.cc: C's truncating arithmetic, the digit string, and reading it back. */
module Printu {
  import opened Prelude

  // ----- the C types -----

  datatype IntType = Int32 | UInt32 | Int64 | UInt64

  predicate Fits(t: IntType, v: int) {
    match t
    case Int32 => -0x8000_0000 <= v < 0x8000_0000
    case UInt32 => 0 <= v < 0x1_0000_0000
    case Int64 => -0x8000_0000_0000_0000 <= v < 0x8000_0000_0000_0000
    case UInt64 => 0 <= v < 0x1_0000_0000_0000_0000
  }

  function Abs(v: int): nat { if v < 0 then -v else v }

  /** C's remainder: of the sign of the dividend. */
  function Remainder(v: int, base: int): int
    requires base > 0
  {
    v - base * Quotient(v, base)
  }

  // ----- digit strings -----

  predicate IsBase(base: int) { base == 10 || base == 16 }

  function DigitChar(d: nat, upperCase: bool): char
    requires d < 16
  {
    if d < 10 then '0' + d as char else if upperCase then 'A' + (d - 10) as char else 'a' + (d - 10) as char
  }

  /** What a reader takes a character for. */
  function DigitValue(c: char): Option<nat> {
    if '0' <= c <= '9' then Some((c - '0') as nat)
    else if 'a' <= c <= 'f' then Some((c - 'a') as nat + 10)
    else if 'A' <= c <= 'F' then Some((c - 'A') as nat + 10)
    else None
  }

  /** The numeral of a value, most significant digit first. */
  function Digits(v: nat, base: int, upperCase: bool): (s: string)
    requires IsBase(base)
    ensures |s| >= 1
  {
    if v < base then [DigitChar(v, upperCase)]
    else Digits(v / base, base, upperCase) + [DigitChar(v % base, upperCase)]
  }

  /** Reading a numeral: the independent definition that printing is measured against. */
  function Parse(s: string, base: int): Option<nat>
    requires IsBase(base)
  {
    if s == [] then None
    else
      match DigitValue(s[|s| - 1])
      case None => None
      case Some(d) =>
        if d >= base then None
        else if |s| == 1 then Some(d)
        else
          match Parse(s[..|s| - 1], base)
          case None => None
          case Some(v) => Some(v * base + d)
  }

  /** A numeral with an optional minus sign. */
  function ParseSigned(s: string, base: int): Option<int>
    requires IsBase(base)
  {
    if s != [] && s[0] == '-' then
      match Parse(s[1..], base)
      case None => None
      case Some(v) => var w: int := v; Some(-w)
    else
      match Parse(s, base)
      case None => None
      case Some(v) => Some(v)
  }

  function Printed(v: int, base: int, upperCase: bool): string
    requires IsBase(base)
  {
    (if v < 0 then "-" else "") + Digits(Abs(v), base, upperCase)
  }

  lemma DigitCharRoundTrip(d: nat, upperCase: bool)
    requires d < 16
    ensures DigitValue(DigitChar(d, upperCase)) == Some(d)
    ensures DigitChar(d, upperCase) != '-' && DigitChar(d, upperCase) != '\0'
    ensures DigitChar(d, upperCase) == '0' <==> d == 0
  {}

  lemma {:induction false} ParseDigits(v: nat, base: int, upperCase: bool)
    requires IsBase(base)
    ensures Parse(Digits(v, base, upperCase), base) == Some(v)
  {
    var s := Digits(v, base, upperCase);
    if v < base {
      DigitCharRoundTrip(v, upperCase);
    } else {
      ParseDigits(v / base, base, upperCase);
      DigitCharRoundTrip(v % base, upperCase);
      assert s[..|s| - 1] == Digits(v / base, base, upperCase);
    }
  }

  /** No leading zero, no sign and no terminator among the digits. */
  lemma {:induction false} DigitsAreClean(v: nat, base: int, upperCase: bool)
    requires IsBase(base)
    ensures var s := Digits(v, base, upperCase);
      (s[0] == '0' ==> v == 0 && |s| == 1) && forall i :: 0 <= i < |s| ==> s[i] != '\0' && s[i] != '-'
  {
    if v < base {
      DigitCharRoundTrip(v, upperCase);
    } else {
      DigitsAreClean(v / base, base, upperCase);
      DigitCharRoundTrip(v % base, upperCase);
    }
  }

  /** Main result: what is printed reads back as the value, for every value, the most negative included. */
  lemma PrintedRoundTrip(v: int, base: int, upperCase: bool)
    requires IsBase(base)
    ensures ParseSigned(Printed(v, base, upperCase), base) == Some(v)
  {
    ParseDigits(Abs(v), base, upperCase);
    DigitsAreClean(Abs(v), base, upperCase);
    if v < 0 {
      assert Printed(v, base, upperCase)[1..] == Digits(Abs(v), base, upperCase);
    } else {
      assert Printed(v, base, upperCase) == Digits(Abs(v), base, upperCase);
    }
  }

  /** All digits in the one letter case that is asked for. */
  ghost predicate InCase(s: string, upperCase: bool) {
    forall i :: 0 <= i < |s| ==> DigitInCase(s[i], upperCase)
  }

  lemma DigitCharIs(d: nat, upperCase: bool)
    requires d < 16
    ensures DigitChar(d, upperCase) == (if upperCase then "0123456789ABCDEF" else "0123456789abcdef")[d]
  {}

  /** Place values: the i-th digit from the end counts the `base`^i. */
  lemma {:induction false} DigitAt(v: nat, base: int, upperCase: bool, i: nat)
    requires IsBase(base) && i < |Digits(v, base, upperCase)|
    ensures Power(base, i) > 0
    ensures var s := Digits(v, base, upperCase); s[|s| - 1 - i] == DigitChar(v / Power(base, i) % base, upperCase)
  {
    PowerPositive(base, i);
    LastDigit(v, base, upperCase);
    if i > 0 {
      DigitAt(v / base, base, upperCase, i - 1);
      DivTwice(v, base, Power(base, i - 1));
    }
  }

  lemma {:induction false} PowerPositive(base: nat, n: nat)
    requires base > 0
    ensures Power(base, n) > 0
  {
    if n > 0 { PowerPositive(base, n - 1); }
  }

  /** A negative number starts with its sign, and no other does. */
  lemma SignFirst(v: int, base: int, upperCase: bool)
    requires IsBase(base)
    ensures Printed(v, base, upperCase)[0] == '-' <==> v < 0
    ensures Printed(v, base, upperCase)[if v < 0 then 1 else 0..] == Digits(if v < 0 then -v else v, base, upperCase)
  {
    DigitsAreClean(Abs(v), base, upperCase);
  }

  /** A digit, or one of the six letters in the case that is asked for and never in the other. */
  predicate DigitInCase(c: char, upperCase: bool) {
    '0' <= c <= '9' || (if upperCase then 'A' <= c <= 'F' else 'a' <= c <= 'f')
  }

  lemma CharOfDigit(c: char, upperCase: bool)
    requires DigitInCase(c, upperCase)
    ensures DigitValue(c).Some? && c == DigitChar(DigitValue(c).value, upperCase)
  {}

  lemma {:induction false} LettersInCase(v: nat, base: int, upperCase: bool)
    requires IsBase(base)
    ensures forall i :: 0 <= i < |Digits(v, base, upperCase)| ==> DigitInCase(Digits(v, base, upperCase)[i], upperCase)
    ensures base == 10 ==> forall i :: 0 <= i < |Digits(v, base, upperCase)| ==> '0' <= Digits(v, base, upperCase)[i] <= '9'
  {
    if v >= base {
      LettersInCase(v / base, base, upperCase);
    }
  }

  lemma LastDigitApart(w: nat, d: nat, base: int)
    requires IsBase(base) && d < base
    ensures (w * base + d) / base == w && (w * base + d) % base == d && (w != 0 ==> w * base + d >= base)
  {
    if base == 10 {
      assert (w * 10 + d) / 10 == w;
    } else {
      assert (w * 16 + d) / 16 == w;
    }
  }

  lemma ZeroNumeral(base: int, upperCase: bool)
    requires IsBase(base)
    ensures Digits(0, base, upperCase)[0] == '0'
  {}

  lemma ParseSplits(s: string, v: nat, base: int)
    requires IsBase(base) && |s| > 1 && Parse(s, base) == Some(v)
    ensures DigitValue(s[|s| - 1]).Some? && Parse(s[..|s| - 1], base).Some?
    ensures var d, w := DigitValue(s[|s| - 1]).value, Parse(s[..|s| - 1], base).value;
      d < base && v == w * base + d
  {}

  /** The digits are the only numeral of the value without a leading zero. */
  lemma {:induction false} OnlyNumeral(s: string, v: nat, base: int, upperCase: bool)
    requires IsBase(base) && InCase(s, upperCase) && Parse(s, base) == Some(v)
    requires |s| > 1 ==> s[0] != '0'
    ensures s == Digits(v, base, upperCase)
  {
    hide DigitInCase, DigitValue;
    CharOfDigit(s[|s| - 1], upperCase);
    if |s| > 1 {
      ParseSplits(s, v, base);
      var front, d := s[..|s| - 1], DigitValue(s[|s| - 1]).value;
      var w := Parse(front, base).value;
      assert front[0] == s[0];
      OnlyNumeral(front, w, base, upperCase);
      ZeroNumeral(base, upperCase);
      LastDigitApart(w, d, base);
      assert s == front + [s[|s| - 1]];
    }
  }

  /** Different values print differently. */
  lemma PrintedInjective(v: int, w: int, base: int, upperCase: bool)
    requires IsBase(base) && Printed(v, base, upperCase) == Printed(w, base, upperCase)
    ensures v == w
  {
    PrintedRoundTrip(v, base, upperCase);
    PrintedRoundTrip(w, base, upperCase);
  }

  // ----- how many digits -----

  function Power(base: nat, n: nat): nat { if n == 0 then 1 else base * Power(base, n - 1) }

  lemma {:induction false} DigitsBounded(v: nat, base: int, upperCase: bool, n: nat)
    requires IsBase(base) && n >= 1 && v < Power(base, n)
    ensures |Digits(v, base, upperCase)| <= n
  {
    if v >= base {
      assert n >= 2 by { assert Power(base, 1) == base; }
      assert v / base < Power(base, n - 1);
      DigitsBounded(v / base, base, upperCase, n - 1);
    }
  }

  lemma TwentyDigits()
    ensures Power(10, 20) == 100_000_000_000_000_000_000
    ensures Power(16, 16) == 0x1_0000_0000_0000_0000
  {
    assert Power(10, 4) == 10_000 && Power(10, 8) == 1_0000_0000 && Power(10, 12) == 1_0000_0000_0000;
    assert Power(10, 16) == 1_0000_0000_0000_0000;
    assert Power(16, 4) == 0x1_0000 && Power(16, 8) == 0x1_0000_0000 && Power(16, 12) == 0x1_0000_0000_0000;
  }

  /** Twenty digits are enough for every 64-bit value, sixteen in base 16. */
  lemma AtMostTwentyDigits(t: IntType, v: int, base: int, upperCase: bool)
    requires Fits(t, v) && IsBase(base)
    ensures |Digits(Abs(v), base, upperCase)| <= if base == 10 then 20 else 16
  {
    TwentyDigits();
    DigitsBounded(Abs(v), base, upperCase, if base == 10 then 20 else 16);
  }

  // ----- the code -----

  /** `w` has the sign of `v` and is no farther from zero. */
  predicate TowardsZero(w: int, v: int) { 0 <= w <= v || v <= w <= 0 }

  lemma FitsTowardsZero(t: IntType, v: int, w: int)
    requires Fits(t, v) && TowardsZero(w, v)
    ensures Fits(t, w)
  {}

  lemma StepsOfTen(v: int)
    ensures TowardsZero(Quotient(v, 10), v) && Abs(Quotient(v, 10)) == Abs(v) / 10
    ensures TowardsZero(Remainder(v, 10), v) && Abs(Remainder(v, 10)) == Abs(v) % 10
  {}

  lemma StepsOfSixteen(v: int)
    ensures TowardsZero(Quotient(v, 16), v) && Abs(Quotient(v, 16)) == Abs(v) / 16
    ensures TowardsZero(Remainder(v, 16), v) && Abs(Remainder(v, 16)) == Abs(v) % 16
  {}

  lemma TruncatingSteps(t: IntType, v: int, base: int)
    requires Fits(t, v) && IsBase(base)
    ensures Fits(t, Quotient(v, base)) && Abs(Quotient(v, base)) == Abs(v) / base
    ensures Fits(t, Remainder(v, base)) && Abs(Remainder(v, base)) == Abs(v) % base
  {
    hide Fits, TowardsZero, Quotient, Remainder;
    if base == 10 {
      StepsOfTen(v);
    } else {
      StepsOfSixteen(v);
    }
    FitsTowardsZero(t, v, Quotient(v, base));
    FitsTowardsZero(t, v, Remainder(v, base));
  }

  /** A remainder as a digit; the sign is dropped. */
  method ToChar(number: int, upperCase: bool) returns (c: char)
    ensures c == if Abs(number) > 15 then '?' else DigitChar(Abs(number), upperCase)
  {
    var n := number;
    if n < 0 {
      n := n * -1;
    }
    if n > 15 {
      c := '?';
    } else if n < 10 {
      c := n as char + '0';
    } else if upperCase {
      c := ((n as char) as int + 'A' as int - 10) as char;
    } else {
      c := ((n as char) as int + 'a' as int - 10) as char;
    }
  }

  method CountDigits(t: IntType, value: int, base: int, ghost upperCase: bool) returns (numDigits: nat)
    requires Fits(t, value) && IsBase(base)
    ensures numDigits == |Digits(Abs(value), base, upperCase)|
  {
    numDigits := 0;
    if value == 0 {
      numDigits := 1;
    } else {
      var valueCopy := value;
      while valueCopy != 0
        invariant Fits(t, valueCopy)
        invariant |Digits(Abs(value), base, upperCase)| ==
          numDigits + (if valueCopy == 0 then 0 else |Digits(Abs(valueCopy), base, upperCase)|)
        decreases Abs(valueCopy)
      {
        TruncatingSteps(t, valueCopy, base);
        valueCopy := Quotient(valueCopy, base);
        numDigits := numDigits + 1;
      }
    }
  }

  lemma LastDigit(v: nat, base: int, upperCase: bool)
    requires IsBase(base)
    ensures var s := Digits(v, base, upperCase);
      && s[|s| - 1] == DigitChar(v % base, upperCase)
      && (|s| > 1 ==> Digits(v / base, base, upperCase) == s[..|s| - 1])
  {}

  /** Writes the numeral of the absolute value from its end, and a terminator. */
  method ToString(t: IntType, value: int, buffer: array<char>, base: int, upperCase: bool)
    requires Fits(t, value) && IsBase(base) && buffer.Length >= 21
    modifies buffer
    ensures var s := Digits(Abs(value), base, upperCase);
      |s| < buffer.Length && buffer[..] == s + ['\0'] + old(buffer[|s| + 1..])
  {
    hide Digits;
    ghost var s := Digits(Abs(value), base, upperCase);
    AtMostTwentyDigits(t, value, base, upperCase);
    var numDigits := CountDigits(t, value, base, upperCase);
    var v, i := value, 0;
    while i < numDigits
      invariant 0 <= i <= numDigits == |s| && Fits(t, v)
      invariant i < numDigits ==> Digits(Abs(v), base, upperCase) == s[..numDigits - i]
      invariant forall k :: numDigits - i <= k < numDigits ==> buffer[k] == s[k]
      invariant forall k :: numDigits <= k < buffer.Length ==> buffer[k] == old(buffer[k])
    {
      TruncatingSteps(t, v, base);
      LastDigit(Abs(v), base, upperCase);
      assert s[..numDigits - i][..numDigits - i - 1] == s[..numDigits - i - 1];
      var digit := ToChar(Remainder(v, base), upperCase);
      v := Quotient(v, base);
      buffer[numDigits - 1 - i] := digit;
      i := i + 1;
    }
    buffer[numDigits] := '\0';
  }

  /** Puts writes up to the terminator. */
  method Puts(buffer: array<char>, ghost s: string) returns (out: string)
    requires s + ['\0'] <= buffer[..] && forall i :: 0 <= i < |s| ==> s[i] != '\0'
    ensures out == s
  {
    out := [];
    var i := 0;
    while buffer[i] != '\0'
      invariant 0 <= i <= |s| < buffer.Length && out == s[..i]
      invariant forall k :: 0 <= k < |s| ==> buffer[k] == s[k]
      invariant buffer[|s|] == '\0'
      decreases |s| - i
    {
      out := out + [buffer[i]];
      i := i + 1;
    }
  }

  /** The PRINT_NUMBER macro, for one of the C types and a base. */
  method PrintNumber(t: IntType, value: int, base: int, upperCase: bool) returns (out: string)
    requires Fits(t, value) && IsBase(base)
    ensures out == Printed(value, base, upperCase) && |out| <= 21
  {
    var buffer := new char[64](i => '\0');
    var sign := "";
    if value < 0 {
      sign := "-";
    }
    ToString(t, value, buffer, base, upperCase);
    AtMostTwentyDigits(t, value, base, upperCase);
    DigitsAreClean(Abs(value), base, upperCase);
    var digits := Puts(buffer, Digits(Abs(value), base, upperCase));
    out := sign + digits;
  }
}
