/** Decimal text: how integers are written, and how the standard library reads them back. */
module Decimal {
  import opened Wrappers
  import opened Bytes

  const MINUS: Byte := 45
  const PLUS: Byte := 43
  const ZERO: Byte := 48

  const I64_MIN := -0x8000_0000_0000_0000
  const I64_MAX := 0x7fff_ffff_ffff_ffff

  predicate IsDigit(b: Byte) {
    ZERO <= b <= ZERO + 9
  }

  predicate AllDigits(s: seq<Byte>) {
    forall i :: 0 <= i < |s| ==> IsDigit(s[i])
  }

  /** The decimal digits of a natural number, without padding. */
  function Digits(n: nat): (s: seq<Byte>)
    ensures s != [] && AllDigits(s)
    ensures s[0] == ZERO <==> n == 0
    ensures n < 10 <==> |s| == 1
  {
    if n < 10 then [ZERO + n] else Digits(n / 10) + [ZERO + n % 10]
  }

  function ToText(n: int): (s: seq<Byte>)
    ensures s != []
    ensures forall i :: 0 <= i < |s| ==> IsDigit(s[i]) || s[i] == MINUS
  {
    if n < 0 then [MINUS] + Digits(-n) else Digits(n)
  }

  function Value(s: seq<Byte>): nat
    requires AllDigits(s)
  {
    if s == [] then 0 else 10 * Value(s[..|s| - 1]) + (s[|s| - 1] - ZERO)
  }

  /** `str::parse::<i64>`: an optional sign, at least one digit, nothing else, no overflow. */
  function ParseI64(s: seq<Byte>): Option<int> {
    var signed := s != [] && (s[0] == MINUS || s[0] == PLUS);
    var digits := if signed then s[1..] else s;
    if digits == [] || !AllDigits(digits) then None
    else
      var n: int := if signed && s[0] == MINUS then -(Value(digits) as int) else Value(digits);
      if I64_MIN <= n <= I64_MAX then Some(n) else None
  }

  lemma {:induction false} ValueOfDigits(n: nat)
    ensures Value(Digits(n)) == n
  {
    if n >= 10 {
      ValueOfDigits(n / 10);
      assert Digits(n)[..|Digits(n)| - 1] == Digits(n / 10);
    }
  }

  lemma {:induction false} LeadingDigit(s: seq<Byte>)
    requires s != [] && AllDigits(s) && s[0] != ZERO
    ensures Value(s) > 0
  {
    if |s| > 1 {
      LeadingDigit(s[..|s| - 1]);
    }
  }

  /** Unpadded digits are exactly the digits of their value; padded ones are longer. */
  lemma {:induction false} DigitsOfValue(s: seq<Byte>)
    requires s != [] && AllDigits(s)
    ensures |s| == 1 || s[0] != ZERO ==> Digits(Value(s)) == s
    ensures |Digits(Value(s))| <= |s|
  {
    var front := s[..|s| - 1];
    if |s| > 1 {
      DigitsOfValue(front);
      assert Value(s) / 10 == Value(front);
      if s[0] != ZERO {
        LeadingDigit(front);
        assert s == front + [s[|s| - 1]];
      }
    } else {
      assert Value(front) == 0;
    }
  }

  lemma ParseOfText(n: int)
    requires I64_MIN <= n <= I64_MAX
    ensures ParseI64(ToText(n)) == Some(n)
    ensures |ToText(n)| > 1 ==> ToText(n)[0] != ZERO && !(ToText(n)[0] == MINUS && ToText(n)[1] == ZERO)
  {
    if n < 0 {
      ValueOfDigits(-n);
      assert ToText(n)[1..] == Digits(-n);
    } else {
      ValueOfDigits(n);
    }
  }

  /** Text without padding, negative zero or plus sign is what its value is written as. */
  lemma TextOfParse(s: seq<Byte>)
    requires ParseI64(s).Some?
    requires |s| > 1 ==> s[0] != ZERO && !(s[0] == MINUS && s[1] == ZERO)
    ensures s[0] != PLUS ==> ToText(ParseI64(s).value) == s
    ensures s[0] == PLUS ==> |ToText(ParseI64(s).value)| < |s|
  {
    if s[0] == MINUS {
      DigitsOfValue(s[1..]);
      LeadingDigit(s[1..]);
      assert s == [MINUS] + s[1..];
    } else if s[0] == PLUS {
      DigitsOfValue(s[1..]);
    } else {
      DigitsOfValue(s);
    }
  }
}
