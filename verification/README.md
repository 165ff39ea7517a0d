# MAC-address normaliser

This project models the MAC-address normaliser in `net2/mac.go`, written in Dafny.
`NormalizeMac(mac, fill, upper)` splits an address on `:` and needs exactly six fields.
It reads each field as an unsigned hexadecimal byte with `strconv.ParseUint(field, 16, 8)`.
It re-renders each byte with the verb `%0x`, `%0X`, `%02x` or `%02X`, chosen from the two flags, and joins the groups with `:` again.
Any invalid address yields `""`.
The four wrappers `NormalizeMacFU`, `NormalizeMacFu`, `NormalizeMacfU` and `NormalizeMacfu` fix the two flags.

The Go library calls are written out in Dafny rather than assumed:

- `results.dfy` (module `Results`): `Option` and `Result`, the shape of Go's `(value, err)` pairs.
- `go_strings.dfy` (module `GoStrings`): `strings.Split` and `strings.Join` for a one-character separator.
  It includes their round trips and the separator count of a join.
- `parse_uint.dfy` (module `ParseUint`): `strconv.ParseUint(s, 16, 8)` written as Go's digit loop.
  That covers the digit table, the 64-bit cutoff check and the `maxVal` check.
  The loop is proved equal to an independent reference meaning, `HexValue`, the positional value of a hex numeral.
- `format_hex.dfy` (module `FormatHex`): the formatter verb built from the flags, and `fmt.Sprintf` for those verbs.
  Its output is proved to read back as the same byte.
- `mac.dfy` (module `Mac`): `NormalizeMac`, the wrappers, and the properties of the normaliser.

Strings are modelled as sequences of `char`, whereas Go's strings are byte sequences.
This does not change any result.
The separator and every accepted digit are ASCII.
The parser rejects every non-ASCII byte, and the model rejects every non-ASCII character.

## Model

| member | source | states |
|---|---|---|
| GoStrings.Split | net2/mac.go:33 | `strings.Split` returns one more field than there are colons (one empty field for `""`), and no field contains a colon |
| GoStrings.JoinSplit | net2/mac.go:33-56 | joining the fields of a split gives back the original string |
| GoStrings.SplitJoin | net2/mac.go:33-56 | splitting a join of one or more colon-free groups gives back those groups, in order |
| GoStrings.JoinSeparatorCount | net2/mac.go:56 | a join of n colon-free groups holds exactly n - 1 colons |
| GoStrings.JoinCharacters | net2/mac.go:56 | every character of a join is the separator or comes from one of the groups |
| ParseUint.DigitOfBelowBase | net2/mac.go:49 | Go's digit table, restricted to digits below base 16, accepts exactly 0-9, a-f and A-F, with their usual values |
| ParseUint.AccumulateMeaning | net2/mac.go:49 | from a valid prefix, the digit loop with its cutoff and max-value checks succeeds exactly when the rest is hex digits and the whole value is at most 0xFF, and then yields that value |
| ParseUint.ParseUint8Hex | net2/mac.go:49-52 | `ParseUint(s, 16, 8)` succeeds exactly on a non-empty run of hex digits in either case, with any leading zeros, denoting at most 0xFF, and then returns that value. An empty field, a sign, `0x`, `_` or a value above 0xFF fails |
| FormatHex.FormatterFor | net2/mac.go:38-46 | the verb has width 2 exactly when `fill` is set (no width otherwise), and it is upper case exactly when `upper` is set |
| FormatHex.HexDigits | net2/mac.go:53 | the `%x` digits of a value denote that value, are all of the chosen case, start with `0` only for zero, are one digit exactly below 16, and are at most two digits for a byte |
| FormatHex.Sprintf | net2/mac.go:43-53 | every character the formatter emits is a decimal digit or a letter of the chosen case; with `%02x` a byte is exactly two digits; with `%0x` it is one digit exactly below 16, and it has a leading `0` only when the value is zero |
| FormatHex.SprintfRoundTrip | net2/mac.go:49-53 | reading a formatted byte back with `ParseUint(…, 16, 8)` gives that byte, for every width and case |
| Mac.ParseFields | net2/mac.go:48-52 | the field loop succeeds exactly when every field parses, and then yields each field's byte in field order |
| Mac.FormatFieldsRoundTrip | net2/mac.go:48-54 | re-rendered groups contain no colon, and the field loop reads them back as the same bytes |
| Mac.NormalizeMac | net2/mac.go:32-57 | the result is `""` when there are not six fields and when some field fails to parse; it is `""` exactly when the address is invalid |
| Mac.NormalizeMacFields | net2/mac.go:48-56 | a valid address gives six groups with exactly five colons, group i is byte i in the chosen format, each group denotes the same byte as the input field in the same position, and the result is a valid address of the same six bytes |
| Mac.NormalizeMacGroupWidth | net2/mac.go:43-53 | with `fill` every group is two digits; without it no group has a leading zero except `"0"`, and a group is one digit exactly when its byte is below 16 |
| Mac.NormalizeMacCase | net2/mac.go:39-56 | every character of the result is `:` or a hex digit of the chosen case, so upper case has no `a`-`f` and lower case has no `A`-`F` |
| Mac.NormalizeMacIdempotent | net2/mac.go:32-56 | normalising a result again with the same flags returns it unchanged, including the `""` of an invalid address |
| Mac.NormalizeMacRejectsDashes | net2/mac.go:33-36 | a dash-separated address is a single field and yields `""` |
| Mac.NormalizeMacFilledLayout | net2/mac.go:43-56 | with `fill` a result is `""` or `hh:hh:hh:hh:hh:hh`: 17 characters with a colon at every third position and a hex digit of the chosen case elsewhere |
| Mac.NormalizeMacFU | net2/mac.go:59-62 | equals `NormalizeMac(mac, true, true)`; it is `""` exactly for invalid addresses and otherwise upper-case `hh:hh:hh:hh:hh:hh` |
| Mac.NormalizeMacFu | net2/mac.go:64-67 | equals `NormalizeMac(mac, true, false)`; it is `""` exactly for invalid addresses and otherwise lower-case `hh:hh:hh:hh:hh:hh` |
| Mac.NormalizeMacfU | net2/mac.go:69-72 | equals `NormalizeMac(mac, false, true)`; it is `""` exactly for invalid addresses and holds only colons and upper-case hex digits |
| Mac.NormalizeMacfu | net2/mac.go:74-77 | equals `NormalizeMac(mac, false, false)`; it is `""` exactly for invalid addresses and holds only colons and lower-case hex digits |

## Left out

- `GetMacByInterface` and `GetMacByIP` (net2/mac.go:79-117): they enumerate the host's network interfaces and addresses. This is operating-system I/O with no pure behaviour to state.
- `nets/server/udp.go`: a UDP listen, read and echo loop with panic recovery and logging. This is network I/O.
- The typed option component (`Scan`, `UnmarshalJSON`, the kind predicates and accessors, named options): the implementation that `option/typed_option_test.go` exercises is not part of this model, so its rules cannot be checked against code. Its float and time cases also depend on floating point and Go's time library.
- ParseUint.ParseUint8Hex: the contract says when parsing succeeds and what it returns. It does not say which of `ErrSyntax` and `ErrRange` a failure reports, because the normaliser discards the error. The body does follow Go's order of checks.
- Go's `lower(c) = c | 0x20` letter test is modelled as "an ASCII letter of either case". Both accept the same characters.
- `strings.Split` is modelled only for a one-character separator, the only form the normaliser uses.
