/**
 * The two library functions the validators rely on. A Go string is modelled
 * as its sequence of runes (code points), so `utf8.RuneCountInString` is the
 * length of that sequence.
 */
module Unicode {

  /** `utf8.RuneCountInString`. */
  function RuneCount(s: string): nat
  {
    |s|
  }

  predicate InDigitBlock(x: int, zero: int)
  {
    zero <= x < zero + 10
  }

  /**
   * `unicode.IsDigit`: within Latin-1 only '0'..'9'; above Latin-1 every code
   * point of general category Nd (decimal digit) of Unicode 15.0, which comes
   * in blocks of ten consecutive code points starting at a digit zero.
   */
  predicate IsDigit(c: char)
    ensures '0' <= c <= '9' ==> IsDigit(c)
    ensures c as int <= 0xFF ==> (IsDigit(c) <==> '0' <= c <= '9')
  {
    var x := c as int;
    if x <= 0xFF then '0' <= c <= '9'
    else
      || InDigitBlock(x, 0x0660) || InDigitBlock(x, 0x06F0) || InDigitBlock(x, 0x07C0)
      || InDigitBlock(x, 0x0966) || InDigitBlock(x, 0x09E6) || InDigitBlock(x, 0x0A66)
      || InDigitBlock(x, 0x0AE6) || InDigitBlock(x, 0x0B66) || InDigitBlock(x, 0x0BE6)
      || InDigitBlock(x, 0x0C66) || InDigitBlock(x, 0x0CE6) || InDigitBlock(x, 0x0D66)
      || InDigitBlock(x, 0x0DE6) || InDigitBlock(x, 0x0E50) || InDigitBlock(x, 0x0ED0)
      || InDigitBlock(x, 0x0F20) || InDigitBlock(x, 0x1040) || InDigitBlock(x, 0x1090)
      || InDigitBlock(x, 0x17E0) || InDigitBlock(x, 0x1810) || InDigitBlock(x, 0x1946)
      || InDigitBlock(x, 0x19D0) || InDigitBlock(x, 0x1A80) || InDigitBlock(x, 0x1A90)
      || InDigitBlock(x, 0x1B50) || InDigitBlock(x, 0x1BB0) || InDigitBlock(x, 0x1C40)
      || InDigitBlock(x, 0x1C50) || InDigitBlock(x, 0xA620) || InDigitBlock(x, 0xA8D0)
      || InDigitBlock(x, 0xA900) || InDigitBlock(x, 0xA9D0) || InDigitBlock(x, 0xA9F0)
      || InDigitBlock(x, 0xAA50) || InDigitBlock(x, 0xABF0) || InDigitBlock(x, 0xFF10)
      || InDigitBlock(x, 0x104A0) || InDigitBlock(x, 0x10D30) || InDigitBlock(x, 0x11066)
      || InDigitBlock(x, 0x110F0) || InDigitBlock(x, 0x11136) || InDigitBlock(x, 0x111D0)
      || InDigitBlock(x, 0x112F0) || InDigitBlock(x, 0x11450) || InDigitBlock(x, 0x114D0)
      || InDigitBlock(x, 0x11650) || InDigitBlock(x, 0x116C0) || InDigitBlock(x, 0x11730)
      || InDigitBlock(x, 0x118E0) || InDigitBlock(x, 0x11950) || InDigitBlock(x, 0x11C50)
      || InDigitBlock(x, 0x11D50) || InDigitBlock(x, 0x11DA0) || InDigitBlock(x, 0x11F50)
      || InDigitBlock(x, 0x16A60) || InDigitBlock(x, 0x16AC0) || InDigitBlock(x, 0x16B50)
      || (0x1D7CE <= x <= 0x1D7FF)
      || InDigitBlock(x, 0x1E140) || InDigitBlock(x, 0x1E2F0) || InDigitBlock(x, 0x1E4F0)
      || InDigitBlock(x, 0x1E950) || InDigitBlock(x, 0x1FBF0)
  }

  /** The scan `for _, char := range s { if !unicode.IsDigit(char) { ... } }` finds nothing. */
  predicate AllDigits(s: string)
  {
    forall i :: 0 <= i < |s| ==> IsDigit(s[i])
  }
}
