/** Go's `fmt.Sprintf` restricted to the verbs the MAC normaliser builds:
    `%0x`, `%0X`, `%02x` and `%02X` applied to an unsigned integer. */
module FormatHex {
  import opened Results
  import opened ParseUint

  /** A formatting verb `%0<width>x` (or `X` when `upper`): hexadecimal, zero
      padded on the left up to `width` characters; width 0 means no padding. */
  datatype Verb = Verb(width: nat, upper: bool)

  /** The verb the normaliser assembles from its two flags: width 2 when
      filling, no width otherwise, and `X` rather than `x` for upper case. */
  function FormatterFor(fill: bool, upper: bool): (verb: Verb)
    ensures verb.upper == upper
    ensures fill <==> verb.width == 2
    ensures !fill <==> verb.width == 0
  {
    Verb(if fill then 2 else 0, upper)
  }

  /** A hex digit of the chosen case: a decimal digit, or a letter `A`-`F`
      when `upper` and `a`-`f` otherwise. */
  predicate IsCasedHexDigit(c: char, upper: bool) {
    '0' <= c <= '9' || (upper && 'A' <= c <= 'F') || (!upper && 'a' <= c <= 'f')
  }

  function DigitChar(d: nat, upper: bool): (c: char)
    requires d < 16
    ensures IsCasedHexDigit(c, upper)
    ensures IsHexDigit(c) && DigitValue(c) == d
  {
    if d < 10 then ('0' as int + d) as char
    else if upper then ('A' as int + d - 10) as char
    else ('a' as int + d - 10) as char
  }

  /** The hex digits of `v` without leading zeros: they denote `v`, are all of
      the chosen case, start with `0` only for zero itself, and number one
      exactly for the values below 16. */
  function HexDigits(v: nat, upper: bool): (r: string)
    ensures |r| >= 1
    ensures forall i :: 0 <= i < |r| ==> IsCasedHexDigit(r[i], upper)
    ensures AllHexDigits(r) && HexValue(r) == v
    ensures r[0] == '0' <==> v == 0
    ensures |r| == 1 <==> v < 16
    ensures v <= MaxVal ==> |r| <= 2
    decreases v
  {
    if v < 16 then [DigitChar(v, upper)]
    else
      var high := HexDigits(v / 16, upper);
      var r := high + [DigitChar(v % 16, upper)];
      assert r[..|r| - 1] == high;
      r
  }

  function Zeros(k: nat): (z: string)
    ensures |z| == k
    ensures forall i :: 0 <= i < k ==> z[i] == '0'
  {
    if k == 0 then "" else "0" + Zeros(k - 1)
  }

  /** `fmt.Sprintf(verb, v)` for the verbs above. Every character is a hex
      digit of the verb's case, and the output reaches at least the width. For
      a byte under the fill width of 2 that is exactly two digits. Without
      padding (width at most 1) a value below 16 is one digit, and only zero
      renders with a leading `0`. */
  function Sprintf(verb: Verb, v: nat): (r: string)
    ensures forall i :: 0 <= i < |r| ==> IsCasedHexDigit(r[i], verb.upper)
    ensures |r| >= 1 && |r| >= verb.width
    ensures verb.width == 2 && v <= MaxVal ==> |r| == 2
    ensures verb.width <= 1 ==> (|r| == 1 <==> v < 16) && (r[0] == '0' ==> r == "0")
  {
    var digits := HexDigits(v, verb.upper);
    if |digits| < verb.width then
      var z := Zeros(verb.width - |digits|);
      assert forall i :: 0 <= i < |z + digits| ==> (z + digits)[i] == if i < |z| then '0' else digits[i - |z|];
      z + digits
    else digits
  }

  /** Leading zeros do not change the value of a hex numeral. */
  lemma {:induction false} HexValueLeadingZeros(k: nat, s: string)
    requires AllHexDigits(s)
    ensures AllHexDigits(Zeros(k) + s)
    ensures HexValue(Zeros(k) + s) == HexValue(s)
    decreases |s|
  {
    var t := Zeros(k) + s;
    assert forall i :: 0 <= i < |t| ==> t[i] == if i < k then '0' else s[i - k];
    if |s| == 0 {
      assert t == Zeros(k);
      ZerosValue(k);
    } else {
      var init := s[..|s| - 1];
      HexValueLeadingZeros(k, init);
      assert t[..|t| - 1] == Zeros(k) + init;
    }
  }

  lemma {:induction false} ZerosValue(k: nat)
    ensures AllHexDigits(Zeros(k))
    ensures HexValue(Zeros(k)) == 0
    decreases k
  {
    if k > 0 {
      ZerosValue(k - 1);
      var z := Zeros(k);
      assert z[..k - 1] == Zeros(k - 1);
    }
  }

  /** The formatter's output read back by `ParseUint(…, 16, 8)` gives the byte
      that was formatted, whatever the width and case. */
  lemma SprintfRoundTrip(verb: Verb, v: Byte)
    ensures ParseUint8Hex(Sprintf(verb, v)) == Success(v)
  {
    var digits := HexDigits(v, verb.upper);
    if |digits| < verb.width {
      HexValueLeadingZeros(verb.width - |digits|, digits);
    }
  }
}
