/**
 * The `%d` conversion the command factories use, and the reading back of
 * the digits it produces.
 */
module Formatting {
  import opened Bytes
  import opened Wrappers

  const ZERO: byte := 0x30
  const MINUS: byte := 0x2D

  predicate IsDigit(b: byte)
  {
    ZERO <= b < ZERO + 10
  }

  predicate AllDigits(s: seq<byte>)
  {
    forall i :: 0 <= i < |s| ==> IsDigit(s[i])
  }

  /** The decimal digits of `n`, most significant first, without leading zeros. */
  function Digits(n: nat): (r: seq<byte>)
    ensures |r| >= 1 && AllDigits(r)
    ensures r[0] == ZERO ==> n == 0
    decreases n
  {
    if n < 10 then [ZERO + n] else Digits(n / 10) + [ZERO + n % 10]
  }

  /** `%d` of an `int`: a minus sign for negative values, then the digits of the magnitude. */
  function Decimal(v: int): seq<byte>
  {
    if v < 0 then [MINUS] + Digits(-v) else Digits(v)
  }

  /** The value of a string of decimal digits. */
  function DigitsValue(s: seq<byte>): nat
    requires AllDigits(s)
  {
    if s == [] then 0 else 10 * DigitsValue(s[..|s| - 1]) + (s[|s| - 1] - ZERO)
  }

  /** Reads an optionally negative decimal number; anything else is `None`. */
  function ParseDecimal(s: seq<byte>): (r: Option<int>)
    ensures r.Some? ==> s != [] && (r.value < 0 ==> s[0] == MINUS)
  {
    if s == [] then None
    else if s[0] == MINUS then
      if |s| > 1 && AllDigits(s[1..]) then Some(-(DigitsValue(s[1..]) as int)) else None
    else if AllDigits(s) then Some(DigitsValue(s))
    else None
  }

  lemma {:induction false} DigitsRoundTrip(n: nat)
    ensures DigitsValue(Digits(n)) == n
    decreases n
  {
    if n >= 10 {
      var ds := Digits(n);
      DigitsRoundTrip(n / 10);
      assert ds[..|ds| - 1] == Digits(n / 10);
    }
  }

  /** Formatting then reading back gives the value again, negative values included. */
  lemma DecimalRoundTrip(v: int)
    ensures ParseDecimal(Decimal(v)) == Some(v)
  {
    if v < 0 {
      DigitsRoundTrip(-v);
      assert Decimal(v)[1..] == Digits(-v);
    } else {
      DigitsRoundTrip(v);
    }
  }

  /** The text `%d` prints: a lone digit or a first digit other than '0', after a minus sign only before a non-zero digit. */
  predicate NoLeadingZero(s: seq<byte>)
  {
    if |s| > 0 && s[0] == MINUS then |s| > 1 && s[1] != ZERO
    else |s| > 0 && (s[0] == ZERO ==> |s| == 1)
  }

  lemma DecimalHasNoLeadingZero(v: int)
    ensures NoLeadingZero(Decimal(v))
  {
    if v < 0 {
      assert Decimal(v)[1..] == Digits(-v);
    }
  }

  /** A digit string without a leading zero is the one `Digits` prints for its value. */
  lemma {:induction false} DigitsUnique(s: seq<byte>)
    requires s != [] && AllDigits(s) && (s[0] == ZERO ==> |s| == 1)
    ensures s == Digits(DigitsValue(s))
    decreases |s|
  {
    if |s| == 1 {
      assert s[..0] == [];
    } else {
      var init := s[..|s| - 1];
      assert init[0] == s[0] != ZERO;
      DigitsUnique(init);
      var d := DigitsValue(init);
      assert Digits(0) == [ZERO];
      assert d != 0;
      var n := DigitsValue(s);
      assert n == 10 * d + (s[|s| - 1] - ZERO);
      assert n / 10 == d && n % 10 == s[|s| - 1] - ZERO;
      assert s == init + [s[|s| - 1]];
    }
  }

  /** Only one text without leading zeros reads as a given value: the one `%d` prints. */
  lemma DecimalUnique(s: seq<byte>, v: int)
    requires NoLeadingZero(s) && ParseDecimal(s) == Some(v)
    ensures s == Decimal(v)
  {
    assert Digits(0) == [ZERO];
    if s[0] == MINUS {
      var digits := s[1..];
      assert digits[0] == s[1];
      DigitsUnique(digits);
      assert s == [MINUS] + digits;
    } else {
      DigitsUnique(s);
    }
  }

  /** Different values print differently. */
  lemma DecimalInjective(v: int, w: int)
    requires Decimal(v) == Decimal(w)
    ensures v == w
  {
    DecimalRoundTrip(v);
    DecimalRoundTrip(w);
  }
}
