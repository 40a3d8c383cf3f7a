# Online-transaction log generator, modelled in Dafny

The generator writes synthetic "online transaction" log lines for testing
analytics pipelines. Each line has seven fields, in this order: IP address,
user id, timestamp, purchase amount, transaction id, masked card number and
order id. The fields are joined by a comma or a tab. A run is real-time (one
line per tick, forever or `count` times) or historical (exactly `count`
lines with sampled past timestamps).

Every random draw the generator makes is a parameter of the model. Its
`requires` clause states the range the draw comes from: `randint(0, 255)`
for an octet, `randint(1, max_count)` for a user id, an index 0..35 for
`random.choice` over the 36-symbol alphabet, `randint(1, 9999)` and
`randint(1, 100)` for the card number. Given the draws, each generator is a
deterministic string builder, and that is what the model states and proves.

Modules:

- `Results`: the `Option` and `Result` values.
- `Decimal`: Python's `str(n)` for non-negative numbers, the value of a
  digit string, and `str.zfill`. It proves that each inverts the other, that zero padding keeps
  the value, and that `str(n)` has at most k digits exactly when n < 10^k.
- `Delimited`: joining fields with a one-character separator, and Python's
  `str.split(sep)`. It proves that split inverts join when no field holds the
  separator, that join inverts split always, and that a join of n fields
  holds n - 1 separators.
- `Fields`: the field generators. `IpAddress` is a method with the source's
  loop. It is proved equal to `DottedQuad`, the join of the four octet texts.
  The other generators are functions.
- `Records`: the seven-field record, the separator flag, line assembly and
  reading a line back.
- `Generator`: the configuration checks, the two counted emission loops and
  the mode dispatch. The log sink is modelled as the sequence of lines
  emitted.

## Model

| member | source | states |
|---|---|---|
| `Decimal.NatToStr` | python/olt_generator.py:27 | `str(n)` is a non-empty string of digits whose first digit is '0' exactly when n is 0 (no leading zeros) |
| `Decimal.StrToNatOfNatToStr` | python/olt_generator.py:40 | reading back the text `str(n)` writes gives n |
| `Decimal.NatToStrOfStrToNat` | python/olt_generator.py:27 | every canonical digit string is the `str` of the number it denotes, so the textual form is unique |
| `Decimal.NatToStrLength` | python/olt_generator.py:68 | `str(n)` has at most k digits if and only if n < 10^k |
| `Decimal.StrToNatLeadingZeros` | python/olt_generator.py:68 | leading zeros change neither the digit-only form nor the value of a numeral |
| `Decimal.ZFillOfNatToStr` | python/olt_generator.py:68 | `str(n).zfill(w)` is all digits, exactly w long when n < 10^w, unchanged otherwise, and reads back as n |
| `Delimited.Split` | python/olt_generator.py:183-186 | the reader side of the assembled line (the program itself never splits): Python's `str.split` gives at least one piece, and no piece holds the separator |
| `Delimited.SplitJoin` | python/olt_generator.py:183-186 | reader side of the line assembly: splitting joined fields on the separator recovers the fields when none holds it |
| `Delimited.JoinSplit` | python/olt_generator.py:183-186 | reader side of the line assembly: joining the pieces of a split restores the text, so no other line reads as the same fields |
| `Delimited.JoinSeparatorCount` | python/olt_generator.py:183-186 | about the line assembly: n separator-free fields joined hold exactly n - 1 separators |
| `Fields.IpAddress` | python/olt_generator.py:19-30 | the loop appends each octet's `str` and a '.' after the first three only; the result is the dotted quad of the four draws |
| `Fields.OctetTextOf` | python/olt_generator.py:27 | an octet in 0..255 is written with 1 to 3 digits, canonically, and reads back as itself |
| `Fields.DottedQuadExpanded` | python/olt_generator.py:25-30 | the address is octet, '.', octet, '.', octet, '.', octet |
| `Fields.DottedQuadPieces` | python/olt_generator.py:25-30 | the address splits on '.' into exactly the four octet texts and holds exactly three dots |
| `Fields.DottedQuadShape` | python/olt_generator.py:25-30 | no leading or trailing dot, only digits and dots, length 7 to 15 |
| `Fields.DottedQuadRoundTrip` | python/olt_generator.py:25-30 | parsing the address gives back the four octets drawn |
| `Fields.ParseDottedQuadSound` | python/olt_generator.py:25-30 | any text that parses as a dotted quad is exactly the address built from the parsed octets, each in 0..255 |
| `Fields.UserId` | python/olt_generator.py:32-40 | the user id is a canonical numeral whose value is the draw and lies in [1, max_count] |
| `Fields.OrderAlphabetLayout` | python/olt_generator.py:57 | the alphabet `ascii_uppercase + digits` has 36 symbols, A-Z then 0-9, and every such character can be drawn |
| `Fields.OrderId` | python/olt_generator.py:49-57 | the order id has exactly `size` characters, each in A-Z or 0-9; size 0 gives the empty string |
| `Fields.OrderIdChoices` | python/olt_generator.py:57 | each choice can be read back from its character, so distinct draws give distinct ids |
| `Fields.LastFour` | python/olt_generator.py:68 | the padded draw is exactly 4 digits and reads back as the draw |
| `Fields.CcNumberMasked` | python/olt_generator.py:59-76 | an even parity draw gives `****-****-****-` plus the four digits (length 19), an odd one gives `****-******-*` plus them (length 17); exactly one template matches; the last four characters read back as the draw; everything before them is '*' or '-' |
| `Records.SeparatorFor` | python/olt_generator.py:166-169 | the separator is ',' exactly when the flag is 'c', and a tab for any other flag |
| `Records.Assemble` | python/olt_generator.py:183-186 | the line, written as the source concatenates it, is the join of the seven fields in the fixed order |
| `Records.AssembleIsJoin` | python/olt_generator.py:191-194 | the source's explicit concatenation equals the join of the field list |
| `Records.AssembleRoundTrip` | python/olt_generator.py:199-202 | with no field holding the separator, the line holds exactly six separators and splits back into the seven fields in order |
| `Records.ParseRecordSound` | python/olt_generator.py:183-186 | any line that reads as seven fields is exactly the assembly of those fields, none of which holds the separator |
| `Generator.CheckConfig` | python/olt_generator.py:160-163 | historical mode with count 0 fails, then any negative count fails, and every other configuration is accepted |
| `Generator.GeneratedFieldsFreeOfSeparator` | python/olt_generator.py:183-186 | the generated IP, user id, card number and order id never hold a comma or a tab |
| `Generator.RecordLineRoundTrip` | python/olt_generator.py:199-202 | an emitted line reads back as its record and holds six separators, its address parses to the octets drawn and its user id to the number drawn, given that the three externally supplied fields hold no separator |
| `Generator.EmitOne` | python/olt_generator.py:191-194 | one iteration's line is the assembly of the record generated from its draws |
| `Generator.EmitBounded` | python/olt_generator.py:190-204 | each of the two counted loops (real-time at 190-196, historical at 198-204) emits exactly `count` lines when the sleep succeeds, and exactly one when `-f` is negative or beyond `Generator.MaxSleepSeconds` (the sleep raises after the first line); the i-th line is assembled from the i-th draws |
| `Generator.Run` | python/olt_generator.py:159-204 | a rejected configuration emits nothing and carries its error; with a negative `-f`, or one beyond `Generator.MaxSleepSeconds`, every accepted run stops after one line; otherwise real-time with count 0 is the unbounded stream and every other run emits exactly `count` lines in draw order, with the separator the flag selects (for a historical run, this assumes `-s` and `-e` parse as dates) |

## Left out

- The random source (`random.randint`, `random.choice`, `random.uniform`): draws are parameters constrained to their ranges, and nothing about their distribution is claimed.
- `gen_transaction_id` (`uuid.uuid4`, line 47): library code; the transaction id is an opaque string supplied with the draws.
- `gen_purchase_amount` (line 86): a float formatted to two decimals; the amount is an opaque string.
- `convert_ISOdatestr_to_seconds` and `gen_historical_timestamp` (lines 88-121): their logic is `time.strptime`, `time.mktime`, `time.gmtime` and `time.strftime` plus a float draw. The timestamp is an opaque string supplied with the draws. None of these is modelled: the local-time reading of `mktime`; `random.uniform` (line 119) accepting its bounds in either order; and the `ValueError` `strptime` raises for a malformed `-s` or `-e`. That error stops a historical run at line 200, before its first line is logged. `Generator.Run` assumes dates that parse.
- The real-time timestamp (lines 184 and 192) and the default start date (line 172): they read the wall clock.
- The unbounded `while True` loop (lines 182-188): with a `-f` that `time.sleep` accepts it has no exit, so `Generator.Run` reports only that this case is unbounded and emits nothing for it.
- Argument parsing (lines 126-157). The mode is a two-valued datatype because the parser admits only 'r' and 'h'. The parser's help text swaps the two date defaults (it says the start defaults to 1970-01-01 and the end to today; the code does the reverse); neither default is modelled.
- Logging setup and `console_logger.info` (lines 174-177, 187, 195, 203): emission is appending a line to the returned sequence.
- `time.sleep` pacing (lines 188, 196, 204): the delay itself is not modelled. Its one observable effect is an abort, which `Generator.Run` models as `SleepFailed` with the one line logged. `-f` is an unchecked `int` (lines 136-139). When it is negative, `time.sleep` raises `ValueError` after the first line is logged. When it is beyond `Generator.MaxSleepSeconds` (9223372036, the limit of CPython's signed 64-bit nanosecond count), `time.sleep` raises `OverflowError` at the same point.
- `Fields.OrderId`: takes `size` as a `nat`; a negative `size` (for which `range(size)` is empty and the id is `''`) is outside the model, and every call site uses the default 6.
- `Fields.UserId`: requires a draw in [1, max_count], so `max_count < 1` (where `randint` raises `ValueError`) is outside the model; every caller in the source uses the default 100000000.
- `Decimal.ZFillOfNatToStr`: `str.zfill` also moves a leading sign in front of the padding; the model pads only unsigned digit strings, which is all the source passes it.
