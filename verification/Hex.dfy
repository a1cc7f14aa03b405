/** The eight-character hexadecimal fields of a newc header: `format(v, "08x")` and `int(s, 16)`. */
module Hex {
  import opened Arithmetic
  import opened Bytes

  const MINUS: byte := 0x2D

  predicate IsDecimal(b: byte) { 0x30 <= b <= 0x39 }

  predicate IsUpperLetter(b: byte) { 0x41 <= b <= 0x46 }

  predicate IsLowerLetter(b: byte) { 0x61 <= b <= 0x66 }

  predicate IsDigit(b: byte) { IsDecimal(b) || IsUpperLetter(b) || IsLowerLetter(b) }

  predicate AllDigits(s: seq<byte>) { forall i :: 0 <= i < |s| ==> IsDigit(s[i]) }

  predicate HasUpper(s: seq<byte>) { exists i :: 0 <= i < |s| && IsUpperLetter(s[i]) }

  /** No letter of the case that `upper` does not ask for. */
  predicate OneCase(s: seq<byte>, upper: bool) {
    forall i :: 0 <= i < |s| ==> !(if upper then IsLowerLetter(s[i]) else IsUpperLetter(s[i]))
  }

  function Digit(v: nat, upper: bool): (b: byte)
    requires v < 16
    ensures IsDigit(b) && DigitValue(b) == v
    ensures IsUpperLetter(b) <==> v >= 10 && upper
    ensures IsLowerLetter(b) <==> v >= 10 && !upper
  {
    if v < 10 then 0x30 + v else if upper then 0x37 + v else 0x57 + v
  }

  function DigitValue(b: byte): (v: nat)
    requires IsDigit(b)
    ensures v < 16
  {
    if IsDecimal(b) then b - 0x30 else if IsUpperLetter(b) then b - 0x37 else b - 0x57
  }

  lemma DigitOfValue(b: byte, upper: bool)
    requires IsDigit(b) && OneCase([b], upper)
    ensures Digit(DigitValue(b), upper) == b
  {
    assert [b][0] == b;
  }

  function Power16(k: nat): (p: nat)
    ensures p > 0
  {
    if k == 0 then 1 else 16 * Power16(k - 1)
  }

  lemma FieldPowers()
    ensures Power16(7) == 0x1000_0000
    ensures Power16(8) == WORD_LIMIT
  {
    assert Power16(2) == 0x100 && Power16(4) == 0x1_0000 && Power16(6) == 0x100_0000;
  }

  /** `format(n, "0{width}x")`: at least `width` digits, more when `n` needs more. */
  function FormatNat(n: nat, width: nat, upper: bool): (s: seq<byte>)
    ensures s != [] && |s| >= width
    decreases n, width
  {
    if n < 16 && width <= 1 then [Digit(n, upper)]
    else FormatNat(n / 16, if width == 0 then 0 else width - 1, upper) + [Digit(n % 16, upper)]
  }

  /** The number a string of digits stands for. */
  function Value(s: seq<byte>): nat
    requires AllDigits(s)
  {
    if s == [] then 0 else 16 * Value(s[..|s| - 1]) + DigitValue(s[|s| - 1])
  }

  lemma {:induction false} FormatNatDigits(n: nat, width: nat, upper: bool)
    ensures var s := FormatNat(n, width, upper);
      AllDigits(s) && OneCase(s, upper) && Value(s) == n
    decreases n, width
  {
    var s := FormatNat(n, width, upper);
    if n < 16 && width <= 1 {
      assert s[..0] == [];
    } else {
      FormatNatDigits(n / 16, if width == 0 then 0 else width - 1, upper);
      assert s[..|s| - 1] == FormatNat(n / 16, if width == 0 then 0 else width - 1, upper);
    }
  }

  lemma {:induction false} FormatNatLength(n: nat, width: nat, upper: bool)
    requires width > 0
    ensures |FormatNat(n, width, upper)| == width <==> n < Power16(width)
    decreases n, width
  {
    assert Power16(1) == 16;
    if width == 1 {
    } else {
      FormatNatLength(n / 16, width - 1, upper);
    }
  }

  lemma FormatNatAppend(high: nat, low: nat, width: nat, upper: bool)
    requires low < 16 && width > 0
    ensures FormatNat(16 * high + low, width + 1, upper) == FormatNat(high, width, upper) + [Digit(low, upper)]
  {
    LowDigit(low, high);
  }

  lemma FormatNatOneMore(init: seq<byte>, last: byte, upper: bool)
    requires init != [] && AllDigits(init) && IsDigit(last) && OneCase([last], upper)
    requires FormatNat(Value(init), |init|, upper) == init
    ensures FormatNat(Value(init + [last]), |init| + 1, upper) == init + [last]
  {
    hide FormatNat;
    var s := init + [last];
    assert s[..|s| - 1] == init;
    var high, low := Value(init), DigitValue(last);
    assert Value(s) == 16 * high + low;
    FormatNatAppend(high, low, |init|, upper);
    DigitOfValue(last, upper);
  }

  lemma FormatNatOfDigit(b: byte, upper: bool)
    requires IsDigit(b) && OneCase([b], upper)
    ensures FormatNat(Value([b]), 1, upper) == [b]
  {
    DigitOfValue(b, upper);
    assert [b][..0] == [];
  }

  lemma {:induction false} FormatNatOfValue(s: seq<byte>, upper: bool)
    requires s != [] && AllDigits(s) && OneCase(s, upper)
    ensures FormatNat(Value(s), |s|, upper) == s
  {
    var init, last := s[..|s| - 1], s[|s| - 1];
    assert s == init + [last];
    if init == [] {
      FormatNatOfDigit(last, upper);
    } else {
      FormatNatOfValue(init, upper);
      FormatNatOneMore(init, last, upper);
    }
  }

  lemma LowDigit(low: nat, high: nat)
    requires low < 16
    ensures (16 * high + low) % 16 == low && (16 * high + low) / 16 == high
  {
  }

  lemma {:induction false} ValueBound(s: seq<byte>)
    requires AllDigits(s)
    ensures Value(s) < Power16(|s|)
  {
    if s != [] {
      ValueBound(s[..|s| - 1]);
    }
  }

  /** `format(v, "08X" if upper else "08x")`, with the sign of a negative number taking one place. */
  function FormatField(v: int, upper: bool): (s: seq<byte>)
    ensures |s| >= 8
  {
    if v < 0 then [MINUS] + FormatNat(-v, 7, upper) else FormatNat(v, 8, upper)
  }

  /** The numbers that fit the eight characters of a field. */
  predicate FieldFits(v: int) { -0x1000_0000 < v < WORD_LIMIT }

  /** `int(s, 16)` on the spellings `format` can produce: eight digits, or a minus and seven. */
  function ParseField(s: seq<byte>): Option<int>
    requires |s| == 8
  {
    if AllDigits(s) then Some(Value(s))
    else if s[0] == MINUS && AllDigits(s[1..]) then Some(0 - Value(s[1..]))
    else None
  }

  lemma FormatFieldLength(v: int, upper: bool)
    ensures |FormatField(v, upper)| == 8 <==> FieldFits(v)
  {
    FieldPowers();
    if v < 0 {
      FormatNatLength(-v, 7, upper);
    } else {
      FormatNatLength(v, 8, upper);
    }
  }

  /** Reading a printed field gives the number back. */
  lemma ParseFormatField(v: int, upper: bool)
    requires FieldFits(v)
    ensures |FormatField(v, upper)| == 8
    ensures ParseField(FormatField(v, upper)) == Some(v)
    ensures OneCase(FormatField(v, upper), upper)
  {
    FormatFieldLength(v, upper);
    var s := FormatField(v, upper);
    if v < 0 {
      FormatNatDigits(-v, 7, upper);
      assert !IsDigit(s[0]) && s[1..] == FormatNat(-v, 7, upper);
    } else {
      FormatNatDigits(v, 8, upper);
    }
  }

  const UPPER_DIGITS := "0123456789ABCDEF"
  const LOWER_DIGITS := "0123456789abcdef"

  /** The characters of the digits. */
  lemma DigitIs(v: nat, upper: bool)
    requires v < 16
    ensures Digit(v, upper) == (if upper then UPPER_DIGITS else LOWER_DIGITS)[v] as int
  {
  }

  lemma {:induction false} FormatNatAt(n: nat, width: nat, upper: bool, k: nat)
    requires k < width && n < Power16(width)
    ensures |FormatNat(n, width, upper)| == width
    ensures FormatNat(n, width, upper)[k] == Digit(n / Power16(width - 1 - k) % 16, upper)
    decreases width
  {
    FormatNatLength(n, width, upper);
    assert Power16(0) == 1;
    if width > 1 {
      if k < width - 1 {
        FormatNatAt(n / 16, width - 1, upper, k);
        DivideTwice(n, 16, Power16(width - 2 - k));
      }
    } else {
      assert n < 16;
    }
  }

  /** A field holds the hexadecimal digits of its number, the highest first; of a negative one, a minus and seven digits. */
  lemma FieldSpelling(v: int, upper: bool)
    requires FieldFits(v)
    ensures var s, digits := FormatField(v, upper), if upper then UPPER_DIGITS else LOWER_DIGITS;
      && |s| == 8
      && (v >= 0 ==> forall k :: 0 <= k < 8 ==> s[k] == digits[v / Power16(7 - k) % 16] as int)
      && (v < 0 ==> s[0] == '-' as int && forall k :: 1 <= k < 8 ==> s[k] == digits[-v / Power16(7 - k) % 16] as int)
  {
    hide Power16, FormatNat, Digit, FormatField;
    FieldPowers();
    FieldIs(v, upper);
    forall k | 0 <= k < 8
      ensures v >= 0 ==> FormatField(v, upper)[k] == Digit(v / Power16(7 - k) % 16, upper)
      ensures v < 0 && k > 0 ==> FormatField(v, upper)[k] == Digit(-v / Power16(7 - k) % 16, upper)
    {
      if v >= 0 {
        FormatNatAt(v, 8, upper, k);
      } else {
        FormatNatAt(-v, 7, upper, if k == 0 then 0 else k - 1);
      }
    }
    forall d | 0 <= d < 16 ensures Digit(d, upper) == (if upper then UPPER_DIGITS else LOWER_DIGITS)[d] as int {
      DigitIs(d, upper);
    }
  }

  lemma FieldIs(v: int, upper: bool)
    requires FieldFits(v)
    ensures var s := FormatField(v, upper);
      |s| == 8 && if v < 0 then s[0] == '-' as int && s[1..] == FormatNat(-v, 7, upper) else s == FormatNat(v, 8, upper)
  {
    FormatFieldLength(v, upper);
  }

  predicate AllZeroes(s: seq<byte>) { forall i :: 0 <= i < |s| ==> s[i] == 0x30 }

  /** A field is canonical when its letters have one case and it is not a negative zero. */
  predicate CanonicalField(s: seq<byte>, upper: bool)
    requires |s| == 8
  {
    OneCase(s, upper) && !(s[0] == MINUS && AllZeroes(s[1..]))
  }

  lemma {:induction false} ZeroValue(s: seq<byte>)
    requires AllDigits(s)
    ensures Value(s) == 0 <==> AllZeroes(s)
  {
    if s != [] {
      ZeroValue(s[..|s| - 1]);
      assert AllZeroes(s) <==> AllZeroes(s[..|s| - 1]) && s[|s| - 1] == 0x30;
    }
  }

  /** Printing the value of `width` digits gives them back exactly when their letters have one case. */
  lemma FormatNatOfValueIff(s: seq<byte>, upper: bool)
    requires s != [] && AllDigits(s)
    ensures FormatNat(Value(s), |s|, upper) == s <==> OneCase(s, upper)
  {
    FormatNatDigits(Value(s), |s|, upper);
    if OneCase(s, upper) {
      FormatNatOfValue(s, upper);
    }
  }

  lemma AfterMinus(digits: seq<byte>, other: seq<byte>, upper: bool)
    ensures [MINUS] + digits == [MINUS] + other <==> digits == other
    ensures OneCase([MINUS] + digits, upper) <==> OneCase(digits, upper)
  {
    var s := [MINUS] + digits;
    assert s[1..] == digits && ([MINUS] + other)[1..] == other;
    assert forall i :: 0 <= i < |digits| ==> digits[i] == s[i + 1];
  }

  lemma FormatParseMinus(digits: seq<byte>, upper: bool)
    requires |digits| == 7 && AllDigits(digits)
    ensures FieldFits(0 - Value(digits))
    ensures FormatField(0 - Value(digits), upper) == [MINUS] + digits
       <==> OneCase(digits, upper) && !AllZeroes(digits)
  {
    FieldPowers();
    ValueBound(digits);
    ZeroValue(digits);
    if Value(digits) == 0 {
      FormatNatDigits(0, 8, upper);
      assert ([MINUS] + digits)[0] == MINUS && !IsDigit(MINUS);
    } else {
      AfterMinus(digits, FormatNat(Value(digits), 7, upper), upper);
      FormatNatOfValueIff(digits, upper);
    }
  }

  /** Printing a field that was read gives its bytes back exactly when the field is canonical. */
  lemma FormatParseField(s: seq<byte>, upper: bool)
    requires |s| == 8 && ParseField(s).Some?
    ensures FieldFits(ParseField(s).value)
    ensures FormatField(ParseField(s).value, upper) == s <==> CanonicalField(s, upper)
  {
    if AllDigits(s) {
      FieldPowers();
      ValueBound(s);
      FormatNatOfValueIff(s, upper);
    } else {
      var digits := s[1..];
      assert s == [MINUS] + digits;
      FormatParseMinus(digits, upper);
      AfterMinus(digits, digits, upper);
    }
  }
}
