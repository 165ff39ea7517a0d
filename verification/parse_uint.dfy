/** Go's `strconv.ParseUint(s, 16, 8)`, the call that reads one MAC field:
    an explicit base of 16 (so no `0x` prefix and no underscores) and a
    bit size of 8 (so the largest accepted value is 0xFF). */
module ParseUint {
  import opened Results

  /** An unsigned 8-bit value. */
  type Byte = x: int | 0 <= x < 256

  /** The two ways `ParseUint` fails: the text is not a number in the base,
      or the number does not fit in the bit size. */
  datatype NumError = ErrSyntax | ErrRange

  const Base: nat := 16
  /** `1<<bitSize - 1` for a bit size of 8. */
  const MaxVal: nat := 0xFF
  const MaxUint64: nat := 0xFFFF_FFFF_FFFF_FFFF
  /** The first accumulator value whose product with the base overflows 64 bits. */
  const Cutoff: nat := MaxUint64 / Base + 1

  // ---------------------------------------------------------------------------
  // Reference meaning of a hexadecimal numeral

  predicate IsHexDigit(c: char) {
    '0' <= c <= '9' || 'a' <= c <= 'f' || 'A' <= c <= 'F'
  }

  function DigitValue(c: char): (d: nat)
    requires IsHexDigit(c)
    ensures d < 16
  {
    if '0' <= c <= '9' then c as int - '0' as int
    else if 'a' <= c <= 'f' then c as int - 'a' as int + 10
    else c as int - 'A' as int + 10
  }

  predicate AllHexDigits(s: string) {
    forall i :: 0 <= i < |s| ==> IsHexDigit(s[i])
  }

  /** A non-empty run of hex digits in either case. */
  predicate IsHexNumeral(s: string) {
    |s| > 0 && AllHexDigits(s)
  }

  /** The number a run of hex digits denotes, most significant digit first. */
  function HexValue(s: string): nat
    requires AllHexDigits(s)
  {
    if |s| == 0 then 0
    else HexValue(s[..|s| - 1]) * 16 + DigitValue(s[|s| - 1])
  }

  /** Adding digits at the end never makes the value smaller. */
  lemma {:induction false} HexValuePrefix(s: string, j: nat)
    requires AllHexDigits(s)
    requires j <= |s|
    ensures HexValue(s[..j]) <= HexValue(s)
    decreases |s|
  {
    if j < |s| {
      var init := s[..|s| - 1];
      HexValuePrefix(init, j);
      assert init[..j] == s[..j];
    } else {
      assert s[..j] == s;
    }
  }

  // ---------------------------------------------------------------------------
  // The parser as Go writes it

  /** The digit Go's parser reads from a character: decimal digits, then letters
      of either case counting from 10 at `a`, whatever the base; any other
      character (including `_`, a sign, or a non-ASCII byte) is no digit. */
  function DigitOf(c: char): Option<nat> {
    if '0' <= c <= '9' then Some(c as int - '0' as int)
    else if 'a' <= c <= 'z' then Some(c as int - 'a' as int + 10)
    else if 'A' <= c <= 'Z' then Some(c as int - 'A' as int + 10)
    else None
  }

  /** Go's digit table agrees with the hex-digit meaning on the digits below the base. */
  lemma DigitOfBelowBase(c: char)
    ensures (DigitOf(c).Some? && DigitOf(c).value < Base) <==> IsHexDigit(c)
    ensures IsHexDigit(c) ==> DigitOf(c) == Some(DigitValue(c))
  {
  }

  /** The digit loop of `ParseUint` from position `i` with accumulator `n`:
      a character that is no digit of the base is a syntax error, and an
      accumulator that would overflow 64 bits or exceed `MaxVal` is a range error. */
  function Accumulate(s: string, i: nat, n: nat): Result<Byte, NumError>
    requires i <= |s|
    requires n <= MaxVal
    decreases |s| - i
  {
    if i == |s| then Success(n)
    else
      match DigitOf(s[i])
      case None => Failure(ErrSyntax)
      case Some(d) =>
        if d >= Base then Failure(ErrSyntax)
        else if n >= Cutoff then Failure(ErrRange)
        else
          var n1 := n * Base + d;
          if n1 > MaxVal then Failure(ErrRange)
          else Accumulate(s, i + 1, n1)
  }

  /** One step of the digit loop on a character that is not a hex digit. */
  lemma AccumulateNonDigit(s: string, i: nat, n: nat)
    requires i < |s| && n <= MaxVal
    requires !IsHexDigit(s[i])
    ensures Accumulate(s, i, n) == Failure(ErrSyntax)
  {
    DigitOfBelowBase(s[i]);
  }

  /** One step of the digit loop on a hex digit. */
  lemma AccumulateDigit(s: string, i: nat, n: nat)
    requires i < |s| && n <= MaxVal
    requires IsHexDigit(s[i])
    ensures var n1 := n * 16 + DigitValue(s[i]);
      Accumulate(s, i, n) == if n1 > MaxVal then Failure(ErrRange) else Accumulate(s, i + 1, n1)
  {
    DigitOfBelowBase(s[i]);
  }

  /** Extending a digit prefix by one digit. */
  lemma HexValueSnoc(s: string, i: nat)
    requires i < |s|
    requires AllHexDigits(s[..i]) && IsHexDigit(s[i])
    ensures AllHexDigits(s[..i + 1])
    ensures HexValue(s[..i + 1]) == HexValue(s[..i]) * 16 + DigitValue(s[i])
  {
    var next := s[..i + 1];
    assert next[..i] == s[..i];
    assert forall k :: 0 <= k < i + 1 ==> next[k] == if k < i then s[..i][k] else s[i];
  }

  /** From a valid prefix, the digit loop succeeds exactly when the whole
      string is hex digits denoting at most `MaxVal`, and then yields that value. */
  lemma {:induction false} AccumulateMeaning(s: string, i: nat, n: nat)
    requires i <= |s|
    requires n <= MaxVal
    requires AllHexDigits(s[..i]) && n == HexValue(s[..i])
    ensures Accumulate(s, i, n).Success? <==> AllHexDigits(s) && HexValue(s) <= MaxVal
    ensures Accumulate(s, i, n).Success? ==> Accumulate(s, i, n).value == HexValue(s)
    decreases |s| - i
  {
    if i == |s| {
      assert s[..i] == s;
    } else if !IsHexDigit(s[i]) {
      AccumulateNonDigit(s, i, n);
    } else {
      AccumulateDigit(s, i, n);
      HexValueSnoc(s, i);
      var n1 := HexValue(s[..i + 1]);
      if n1 > MaxVal {
        if AllHexDigits(s) {
          HexValuePrefix(s, i + 1);
        }
      } else {
        AccumulateMeaning(s, i + 1, n1);
      }
    }
  }

  /** `strconv.ParseUint(s, 16, 8)`. It succeeds exactly on a non-empty run of
      hex digits (either case, any number of leading zeros) whose value is at
      most 0xFF, and then returns that value. */
  function ParseUint8Hex(s: string): (r: Result<Byte, NumError>)
    ensures r.Success? <==> IsHexNumeral(s) && HexValue(s) <= MaxVal
    ensures r.Success? ==> r.value == HexValue(s)
  {
    if |s| == 0 then Failure(ErrSyntax)
    else
      assert s[..0] == "";
      AccumulateMeaning(s, 0, 0);
      Accumulate(s, 0, 0)
  }
}
