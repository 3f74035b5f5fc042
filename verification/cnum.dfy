/** The C library's number parsing as the ESP8266 firmware uses it: newlib `strtol`
    in bases 10 and 16. `parseHexColor` calls it directly; Arduino's
    `String::toInt()` is `atol`, i.e. `strtol(s, NULL, 10)`. `long` is 32 bits. */
module CNum {
  import opened Text

  const LongMax: int := 0x7FFF_FFFF
  const LongMin: int := -0x8000_0000

  /** C `isspace` in the "C" locale: space, TAB, LF, VT, FF, CR. */
  predicate IsSpace(c: char) {
    c == ' ' || '\t' <= c <= '\r'
  }

  predicate IsBase(base: nat) {
    base == 10 || base == 16
  }

  /** A digit whose value is below `base`. */
  predicate IsDigitIn(c: char, base: nat)
    ensures IsDigitIn(c, base) ==> IsHexDigit(c)
  {
    if base == 16 then IsHexDigit(c) else IsDigit(c)
  }

  /** Index of the first non-space character at or after `i`. */
  function SkipSpaces(s: string, i: nat): (j: nat)
    requires i <= |s|
    ensures i <= j <= |s|
    ensures forall k :: i <= k < j ==> IsSpace(s[k])
    ensures j == |s| || !IsSpace(s[j])
    decreases |s| - i
  {
    if i < |s| && IsSpace(s[i]) then SkipSpaces(s, i + 1) else i
  }

  /** End of the longest run of `base` digits starting at `i`. */
  function DigitRun(s: string, i: nat, base: nat): (j: nat)
    requires i <= |s|
    ensures i <= j <= |s|
    ensures forall k :: i <= k < j ==> IsDigitIn(s[k], base)
    ensures j == |s| || !IsDigitIn(s[j], base)
    decreases |s| - i
  {
    if i < |s| && IsDigitIn(s[i], base) then DigitRun(s, i + 1, base) else i
  }

  /** The number the digits `s[i..j]` denote in `base`. */
  function RunValue(s: string, i: nat, j: nat, base: nat): nat
    requires IsBase(base) && i <= j <= |s|
    requires forall k :: i <= k < j ==> IsDigitIn(s[k], base)
    decreases j
  {
    if j == i then 0
    else
      assert IsDigitIn(s[j - 1], base);
      RunValue(s, i, j - 1, base) * base + HexValue(s[j - 1])
  }

  /** A conversion result: the value and `endptr - nptr`. */
  datatype Conv = Conv(value: int, end: nat)

  /** newlib `strtol(s, &endptr, base)`: skip `isspace`, an optional sign, in base 16 an
      optional `0x`/`0X`, then the longest digit run. With no digit, the value is 0 and
      `endptr` is `s` itself. An out-of-range magnitude saturates at LONG_MAX/LONG_MIN;
      the digits are consumed all the same. */
  function Strtol(s: string, base: nat): (c: Conv)
    requires IsBase(base)
    ensures LongMin <= c.value <= LongMax
    ensures c.end <= |s|
    ensures c.end == 0 ==> c.value == 0
    ensures (forall k :: 0 <= k < |s| ==> !IsDigitIn(s[k], base)) ==> c == Conv(0, 0)
    ensures c.end > 0 ==> IsDigitIn(s[c.end - 1], base)
    ensures c.end > 0 ==> c.end == |s| || !IsDigitIn(s[c.end], base)
  {
    var i0 := SkipSpaces(s, 0);
    var neg := i0 < |s| && s[i0] == '-';
    var i1 := if i0 < |s| && (s[i0] == '-' || s[i0] == '+') then i0 + 1 else i0;
    var i2 := if base == 16 && i1 + 1 < |s| && s[i1] == '0' && (s[i1 + 1] == 'x' || s[i1 + 1] == 'X')
              then i1 + 2 else i1;
    var j := DigitRun(s, i2, base);
    if j == i2 then Conv(0, 0)
    else
      var mag: int := RunValue(s, i2, j, base);
      Conv(Clamp(if neg then -mag else mag, LongMin, LongMax), j)
  }

  /** Arduino `String::toInt()`. */
  function ToInt(s: string): (v: i32)
  {
    Strtol(s, 10).value
  }

  /** A string of digits in `base` is consumed whole and read as its value. */
  lemma {:induction false} StrtolOfDigits(s: string, base: nat)
    requires IsBase(base) && 1 <= |s|
    requires forall k :: 0 <= k < |s| ==> IsDigitIn(s[k], base)
    ensures Strtol(s, base) == Conv(Clamp(RunValue(s, 0, |s|, base), LongMin, LongMax), |s|)
  {
    assert !IsSpace(s[0]);
    assert SkipSpaces(s, 0) == 0;
    RunCoversDigits(s, 0, base);
  }

  lemma {:induction false} RunCoversDigits(s: string, i: nat, base: nat)
    requires i <= |s|
    requires forall k :: i <= k < |s| ==> IsDigitIn(s[k], base)
    ensures DigitRun(s, i, base) == |s|
    decreases |s| - i
  {
    if i < |s| {
      RunCoversDigits(s, i + 1, base);
    }
  }

  /** The decimal value of a digit string does not depend on where it sits. */
  lemma {:induction false} RunValueIsDecValue(s: string, i: nat, j: nat)
    requires i <= j <= |s| && AllDigits(s[i..j])
    ensures forall k :: i <= k < j ==> IsDigitIn(s[k], 10)
    ensures RunValue(s, i, j, 10) == DecValue(s[i..j])
    decreases j
  {
    assert forall k :: i <= k < j ==> s[k] == s[i..j][k - i];
    if j > i {
      assert s[i..j - 1] == s[i..j][..j - 1 - i];
      RunValueIsDecValue(s, i, j - 1);
    }
  }

  /** `toInt` reads back what Kotlin's and Arduino's `toString` print, for every value
      that fits in 32 bits. */
  lemma ToIntOfIntToDec(n: i32)
    ensures ToInt(IntToDec(n)) == n
  {
    var s := IntToDec(n);
    if n >= 0 {
      assert s[0..|s|] == s;
      RunValueIsDecValue(s, 0, |s|);
      StrtolOfDigits(s, 10);
    } else {
      assert !IsSpace(s[0]);
      assert SkipSpaces(s, 0) == 0;
      RunCoversDigits(s, 1, 10) by {
        assert forall k :: 1 <= k < |s| ==> s[k] == s[1..][k - 1];
      }
      assert s[1..|s|] == s[1..];
      RunValueIsDecValue(s, 1, |s|);
    }
  }
}
