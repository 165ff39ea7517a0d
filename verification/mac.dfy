/** The MAC-address normaliser of `net2/mac.go`: a colon-separated address of
    six hexadecimal fields is re-rendered with a chosen zero padding and letter
    case, and anything else becomes the empty string. */
module Mac {
  import opened Results
  import opened GoStrings
  import opened ParseUint
  import opened FormatHex

  const Separator: char := ':'
  const FieldCount: nat := 6

  /** The field loop of the normaliser: each field read by `ParseUint(…, 16, 8)`
      in order, stopping at the first field that fails. It succeeds exactly
      when every field parses, and then holds each field's byte in field order. */
  function ParseFields(fields: seq<string>): (r: Result<seq<Byte>, NumError>)
    ensures r.Success? <==> forall i :: 0 <= i < |fields| ==> ParseUint8Hex(fields[i]).Success?
    ensures r.Success? ==> |r.value| == |fields|
    ensures r.Success? ==> forall i :: 0 <= i < |fields| ==> r.value[i] == ParseUint8Hex(fields[i]).value
    decreases |fields|
  {
    if |fields| == 0 then Success([])
    else
      match ParseUint8Hex(fields[0])
      case Failure(e) => Failure(e)
      case Success(b) =>
        match ParseFields(fields[1..])
        case Failure(e) => Failure(e)
        case Success(rest) => Success([b] + rest)
  }

  /** Each byte rendered with the same verb. */
  function FormatFields(octets: seq<Byte>, verb: Verb): seq<string>
  {
    seq(|octets|, i requires 0 <= i < |octets| => Sprintf(verb, octets[i]))
  }

  /** An address the normaliser accepts: six colon-separated fields, each a
      non-empty run of hex digits denoting at most 0xFF. */
  predicate IsValidMac(mac: string) {
    var fields := Split(mac, Separator);
    |fields| == FieldCount && ParseFields(fields).Success?
  }

  /** The six bytes a valid address denotes, in field order. */
  function Octets(mac: string): seq<Byte>
    requires IsValidMac(mac)
  {
    ParseFields(Split(mac, Separator)).value
  }

  /** `NormalizeMac(mac, fill, upper)`. The result is empty exactly when the
      address is invalid: in particular when it does not split into six fields
      on `:` and when some field does not parse as a byte. */
  function NormalizeMac(mac: string, fill: bool, upper: bool): (r: string)
    ensures |Split(mac, Separator)| != FieldCount ==> r == ""
    ensures (exists i :: 0 <= i < |Split(mac, Separator)| && ParseUint8Hex(Split(mac, Separator)[i]).Failure?) ==> r == ""
    ensures r == "" <==> !IsValidMac(mac)
  {
    var fields := Split(mac, Separator);
    if |fields| != FieldCount then ""
    else
      var formatter := FormatterFor(fill, upper);
      match ParseFields(fields)
      case Failure(_) => ""
      case Success(octets) => Join(FormatFields(octets, formatter), Separator)
  }

  /** Formatted bytes contain no colon and parse back to the bytes, in order. */
  lemma FormatFieldsRoundTrip(octets: seq<Byte>, verb: Verb)
    ensures var parts := FormatFields(octets, verb);
      && (forall i :: 0 <= i < |parts| ==> Separator !in parts[i])
      && ParseFields(parts) == Success(octets)
  {
    var parts := FormatFields(octets, verb);
    forall i | 0 <= i < |parts|
      ensures Separator !in parts[i]
      ensures ParseUint8Hex(parts[i]) == Success(octets[i])
    {
      SprintfRoundTrip(verb, octets[i]);
    }
    assert ParseFields(parts).value == octets;
  }

  /** On a valid address the result is the join of the formatted bytes. */
  lemma NormalizeMacValid(mac: string, fill: bool, upper: bool)
    requires IsValidMac(mac)
    ensures NormalizeMac(mac, fill, upper) == Join(FormatFields(Octets(mac), FormatterFor(fill, upper)), Separator)
  {
  }

  /** On a valid address the result is six groups joined by `:` (so exactly
      five colons), group `i` is byte `i` of the input rendered with the chosen
      verb, each group parses to the same byte as the input's field did, and
      the result is itself a valid address denoting the same six bytes. */
  lemma NormalizeMacFields(mac: string, fill: bool, upper: bool)
    requires IsValidMac(mac)
    ensures var r := NormalizeMac(mac, fill, upper);
      var groups := Split(r, Separator);
      && |groups| == FieldCount
      && multiset(r)[Separator] == FieldCount - 1
      && (forall i :: 0 <= i < FieldCount ==> groups[i] == Sprintf(FormatterFor(fill, upper), Octets(mac)[i]))
      && (forall i :: 0 <= i < FieldCount ==> ParseUint8Hex(groups[i]) == ParseUint8Hex(Split(mac, Separator)[i]))
      && IsValidMac(r)
      && Octets(r) == Octets(mac)
  {
    var octets := Octets(mac);
    var parts := FormatFields(octets, FormatterFor(fill, upper));
    NormalizeMacValid(mac, fill, upper);
    FormatFieldsRoundTrip(octets, FormatterFor(fill, upper));
    SplitJoin(parts, Separator);
    JoinSeparatorCount(parts, Separator);
  }

  /** Padding of each group: with `fill` exactly two digits; without it no
      leading zero, so one digit exactly for bytes below 16 (and `"0"` for
      zero) and two otherwise. */
  lemma NormalizeMacGroupWidth(mac: string, fill: bool, upper: bool)
    requires IsValidMac(mac)
    ensures var groups := Split(NormalizeMac(mac, fill, upper), Separator);
      && |groups| == FieldCount
      && forall i :: 0 <= i < FieldCount ==>
        && 1 <= |groups[i]|
        && (fill ==> |groups[i]| == 2)
        && (!fill ==> |groups[i]| <= 2 && (|groups[i]| == 1 <==> Octets(mac)[i] < 16))
        && (!fill ==> groups[i][0] == '0' ==> groups[i] == "0")
  {
    NormalizeMacFields(mac, fill, upper);
    var verb := FormatterFor(fill, upper);
  }

  /** Letter case: every character of the result is a colon or a hex digit of
      the chosen case, so an upper-case result holds no `a`-`f` and a
      lower-case one no `A`-`F`. Holds for the empty result too. */
  lemma NormalizeMacCase(mac: string, fill: bool, upper: bool)
    ensures var r := NormalizeMac(mac, fill, upper);
      forall k :: 0 <= k < |r| ==> r[k] == Separator || IsCasedHexDigit(r[k], upper)
    ensures var r := NormalizeMac(mac, fill, upper);
      forall k :: 0 <= k < |r| ==> if upper then !('a' <= r[k] <= 'f') else !('A' <= r[k] <= 'F')
  {
    if IsValidMac(mac) {
      var verb := FormatterFor(fill, upper);
      var parts := FormatFields(Octets(mac), verb);
      var r := NormalizeMac(mac, fill, upper);
      assert r == Join(parts, Separator);
      JoinCharacters(parts, Separator);
      forall k | 0 <= k < |r| && r[k] != Separator
        ensures IsCasedHexDigit(r[k], upper)
      {
        var i :| 0 <= i < |parts| && r[k] in parts[i];
        var j :| 0 <= j < |parts[i]| && parts[i][j] == r[k];
      }
    }
  }

  /** Normalising a normalised address with the same flags changes nothing;
      an invalid address stays empty because `""` splits into a single field. */
  lemma NormalizeMacIdempotent(mac: string, fill: bool, upper: bool)
    ensures var r := NormalizeMac(mac, fill, upper);
      NormalizeMac(r, fill, upper) == r
  {
    var r := NormalizeMac(mac, fill, upper);
    if IsValidMac(mac) {
      NormalizeMacFields(mac, fill, upper);
      NormalizeMacFields(r, fill, upper);
      var verb := FormatterFor(fill, upper);
      assert FormatFields(Octets(r), verb) == FormatFields(Octets(mac), verb);
    } else {
      assert Split(r, Separator) == [""];
    }
  }

  /** A dash-separated address is no address here: without a colon it is one field. */
  lemma NormalizeMacRejectsDashes(fill: bool, upper: bool)
    ensures NormalizeMac("01-02-03-04-05-06", fill, upper) == ""
  {
    var s := "01-02-03-04-05-06";
    assert forall k :: 0 <= k < |s| ==> s[k] != Separator;
    SplitNoSeparator(s, Separator);
  }

  /** The filled shape `hh:hh:hh:hh:hh:hh`: seventeen characters, a colon at
      every third position and a hex digit of the chosen case everywhere else. */
  predicate IsFilledLayout(r: string, upper: bool) {
    && |r| == 3 * FieldCount - 1
    && forall k :: 0 <= k < |r| ==> if k % 3 == 2 then r[k] == Separator else IsCasedHexDigit(r[k], upper)
  }

  /** Where each character of a join of two-character pieces comes from. */
  lemma {:induction false} JoinPairs(parts: seq<string>)
    requires |parts| >= 1
    requires forall i :: 0 <= i < |parts| ==> |parts[i]| == 2
    ensures |Join(parts, Separator)| == 3 * |parts| - 1
    ensures forall k :: 0 <= k < |Join(parts, Separator)| ==>
      Join(parts, Separator)[k] == if k % 3 == 2 then Separator else parts[k / 3][k % 3]
    decreases |parts|
  {
    if |parts| > 1 {
      var tail := parts[1..];
      JoinPairs(tail);
      var r := Join(parts, Separator);
      var t := Join(tail, Separator);
      assert r == parts[0] + [Separator] + t;
      forall k | 3 <= k < |r|
        ensures r[k] == if k % 3 == 2 then Separator else parts[k / 3][k % 3]
      {
        assert r[k] == t[k - 3];
        assert (k - 3) % 3 == k % 3 && (k - 3) / 3 == k / 3 - 1;
      }
    }
  }

  /** With `fill`, a result is empty or has the filled shape. */
  lemma NormalizeMacFilledLayout(mac: string, upper: bool)
    ensures var r := NormalizeMac(mac, true, upper);
      r == "" || IsFilledLayout(r, upper)
  {
    if IsValidMac(mac) {
      var verb := FormatterFor(true, upper);
      var octets := Octets(mac);
      var parts := FormatFields(octets, verb);
      NormalizeMacValid(mac, true, upper);
      assert forall i :: 0 <= i < |parts| ==> |parts[i]| == 2;
      JoinPairs(parts);
    }
  }

  /** `NormalizeMacFU`: filled, upper case, as in `AA:BB:01:22:33:44`. */
  function NormalizeMacFU(mac: string): (r: string)
    ensures r == NormalizeMac(mac, true, true)
    ensures r == "" <==> !IsValidMac(mac)
    ensures r == "" || IsFilledLayout(r, true)
  {
    NormalizeMacFilledLayout(mac, true);
    NormalizeMac(mac, true, true)
  }

  /** `NormalizeMacFu`: filled, lower case, as in `aa:bb:01:22:33:44`. */
  function NormalizeMacFu(mac: string): (r: string)
    ensures r == NormalizeMac(mac, true, false)
    ensures r == "" <==> !IsValidMac(mac)
    ensures r == "" || IsFilledLayout(r, false)
  {
    NormalizeMacFilledLayout(mac, false);
    NormalizeMac(mac, true, false)
  }

  /** `NormalizeMacfU`: unfilled, upper case, as in `AA:BB:1:22:33:44`. */
  function NormalizeMacfU(mac: string): (r: string)
    ensures r == NormalizeMac(mac, false, true)
    ensures r == "" <==> !IsValidMac(mac)
    ensures forall k :: 0 <= k < |r| ==> r[k] == Separator || IsCasedHexDigit(r[k], true)
  {
    NormalizeMacCase(mac, false, true);
    NormalizeMac(mac, false, true)
  }

  /** `NormalizeMacfu`: unfilled, lower case, as in `aa:bb:1:22:33:44`. */
  function NormalizeMacfu(mac: string): (r: string)
    ensures r == NormalizeMac(mac, false, false)
    ensures r == "" <==> !IsValidMac(mac)
    ensures forall k :: 0 <= k < |r| ==> r[k] == Separator || IsCasedHexDigit(r[k], false)
  {
    NormalizeMacCase(mac, false, false);
    NormalizeMac(mac, false, false)
  }
}
