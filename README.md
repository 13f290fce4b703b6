# srec2text in Dafny

This project models `soft/srec2text.py`, a converter from Motorola S-record (SREC) text to a listing of 32-bit words. Properties of the model are proved with Dafny.

The script runs in two phases:

1. **Phase 1 builds a byte map.** It reads the lines in order and skips blank lines. It skips header, count and end records (types 0, 5, 6, 7, 8, 9). For a data record of type 1, 2 or 3 it works out three things from the type:
   - the payload length: the two-digit count field less 3, 4 or 5;
   - the address: 4, 6 or 8 hex digits from offset 4;
   - where the data starts: offset 8, 10 or 12.

   It then writes payload byte `i` into a sparse map at `address + i`. A later record overwrites an earlier one. Type 4 has no branch and stops the run with a decoding error that quotes the stripped line.
2. **Phase 2 emits words.** An empty map is the "no data" error. Otherwise the script:
   - rounds the lowest address down to a multiple of 4;
   - walks in steps of 4 up to the highest address;
   - at each step reads four bytes, using 0xFF for a byte that is absent;
   - emits the word `b3<<24 | b2<<16 | b1<<8 | b0`, so the byte at the lowest address is least significant.

   Each output line is `hex(addr)`, a space, then `0x` and the word in eight upper-case digits.

The model comes in two layers:

- **Specification functions.** These say what a line means (`SrecRecords.DecodeRecord`), what a file does to the map (`SrecRecords.Parse`), what the listing is (`Words.Listing`) and what the whole run gives (`Srec2Text.Convert`).
- **Imperative methods.** These follow the script's loops:
  - `SrecParser.ParseSrec` is the loop over the lines.
  - `SrecParser.ProcessLine` is the body of that loop.
  - `SrecParser.StoreBytes` is the inner loop that writes the bytes.
  - `WordEmitter.KeyRange` takes the lowest and highest keys.
  - `WordEmitter.EmitWords` is the address walk.
  - `Srec2Text.Run` runs both phases.

  Each method is proved to compute its specification function. The lemmas state what the script promises about those functions.

A run that the script ends, whether with a message and `sys.exit(0)` or with a Python exception, is modelled as an `Err` of type `SrecRecords.Error`. The script prints no word before Phase 2 starts, so a run that stops in Phase 1 has no words.

Files, in dependency order: `results.dfy`, `hex.dfy`, `text.dfy`, `records.dfy`, `parser.dfy`, `words.dfy`, `output.dfy`, `emitter.dfy`, `convert.dfy`.

### Malformed lines: what the code does (the model follows the code)

- **Type 4 only.** Only the `else` branch (lines 55-57) prints the SREC decoding error, and the only type digit that reaches it is `4`. The model reports it as `UnsupportedType(entry)`.
- **Other malformed lines.** A line that strips to one character, a type character that is not a decimal digit, or a field that is not hex raises a Python exception (lines 38, 47-53, 59, 63) instead. The model reports `Malformed(entry)`.
- **Clamped slices.** The fields are read with Python slices, which are clamped to the line's length.
  - A short line can still parse. For example, `S10312` reads a count of 0 and address 0x12, and writes nothing. `S1041234A` writes the single byte 0x0A at 0x1234, because its one-digit payload slice `A` reads as that digit (`SrecRecords.ShortLineNoBytes`, `SrecRecords.ShortLineOneDigit`).
  - Only an empty slice fails, for example line 63 on `S10512`, which asks for two bytes and has none (`SrecRecords.ShortLineNoPayload`). `Text.Slice` models this clamping.
- **Counts are not checked.** A count one larger than the record's true count (address, payload and checksum bytes) makes the inner loop read the checksum digits as a data byte. A count larger still reads an empty slice and fails.

## Model

| member | source | states |
|---|---|---|
| Hex.DigitValue | soft/srec2text.py:63 | a character has a hexadecimal value exactly when it is one of 0-9, a-f or A-F; the value is below 16 |
| Hex.DigitChar | soft/srec2text.py:93 | the digit for a value below 16 reads back as that value, is not `0` for a nonzero value, and is upper case for `%X` and lower case for `hex()` |
| Hex.DigitsValue | soft/srec2text.py:63 | a run of characters has a value exactly when all of them are hex digits, and the value is below 16^length |
| Hex.ParseHex | soft/srec2text.py:47 | `int(field, 16)` succeeds exactly on a non-empty field of hex digits, with a value below 16^length |
| Hex.HexOf | soft/srec2text.py:93 | `{:08X}`-style rendering has exactly the requested number of characters, all hex digits, in upper case for `upper` and lower case otherwise |
| Hex.HexOfRoundTrip | soft/srec2text.py:93 | a value that fits in the width reads back unchanged from its fixed-width rendering |
| Hex.MinimalHex | soft/srec2text.py:93 | `hex()` digits are non-empty and all hex digits, in the requested case (lower case for `hex()`) |
| Hex.MinimalHexRoundTrip | soft/srec2text.py:93 | `hex()` digits read back as the number, have no leading zero, and are the single digit `0` for 0 (`hex(0)` is `0x0`) |
| Text.IsSpace | soft/srec2text.py:34-37 | no contract of its own; the characters `str.strip()` removes: the `str.isspace` set, by code point (0x09-0x0D, 0x1C-0x20, 0x85, 0xA0, 0x1680, 0x2000-0x200A, 0x2028, 0x2029, 0x202F, 0x205F, 0x3000) |
| Text.TrimStartSpec | soft/srec2text.py:37 | trimming the front removes only whitespace and stops at a non-space character |
| Text.TrimEndSpec | soft/srec2text.py:37 | trimming the back removes only whitespace and stops at a non-space character |
| Text.StripSpec | soft/srec2text.py:34-37 | `strip()` gives the empty string exactly when the line is all whitespace; a non-empty result starts and ends with non-space characters |
| Text.StripUnchanged | soft/srec2text.py:37 | a line with no whitespace at either end is its own `strip()` |
| Text.Strip | soft/srec2text.py:34-37 | no contract of its own; `Text.StripSpec`, `Text.TrimStartSpec`, `Text.TrimEndSpec` and `Text.StripUnchanged` state what it keeps and drops |
| Text.Slice | soft/srec2text.py:47 | Python slicing: the length is clamped to the string, and the characters are those at the clamped offsets |
| SrecRecords.TypeDigit | soft/srec2text.py:38 | `int(entry[1])` succeeds exactly on a decimal digit, with a value below 10 |
| SrecRecords.DecodeRecord | soft/srec2text.py:34-59 | no contract of its own; `SrecRecords.BlankLineIgnored`, `SrecRecords.NonDataRecordIgnored`, `SrecRecords.TypeFourRejected`, `SrecRecords.DataRecordDispatch`, `SrecRecords.DataFields`, `SrecRecords.EncodeDecode`, `SrecRecords.TypeCharRejected` and `Srec2Text.DecodeErrorIsLineError` state its cases |
| SrecRecords.DecodeData | soft/srec2text.py:46-63 | no contract of its own; `SrecRecords.DataFields` states its layout, its success condition and its error |
| SrecRecords.Overhead | soft/srec2text.py:47-53 | no contract of its own; the bytes of the count that are not payload: 3, 4 or 5 for types 1, 2, 3 (address and checksum); `SrecRecords.DataFields` states the count it gives |
| SrecRecords.DataStart | soft/srec2text.py:48-54 | no contract of its own; the offset of the first payload digit: 8, 10 or 12, the end of the address field; `SrecRecords.DataFields` states it as 2t+6 |
| SrecRecords.ByteAt | soft/srec2text.py:63 | no contract of its own; payload byte i is `int` of the clamped two-character slice at start + 2i; `SrecRecords.DecodeBytes` and `SrecRecords.DataFields` state its use |
| SrecRecords.DecodeBytes | soft/srec2text.py:62-63 | the first n payload bytes decode exactly when each two-character field does; the result has n bytes, each the value of its field |
| SrecRecords.Store | soft/srec2text.py:62-64 | no contract of its own; `SrecRecords.StoreSpec` states its keys and values |
| SrecRecords.ApplyLine | soft/srec2text.py:34-64 | no contract of its own; one line's effect: the line's error, the map unchanged for an ignored line, or `Store` of a data record; `SrecParser.ProcessLine` computes it |
| SrecRecords.ParseFrom | soft/srec2text.py:33-64 | no contract of its own; `SrecRecords.ParseAppend`, `SrecRecords.FirstErrorStops`, `SrecRecords.IgnoredLinesKeepMap` and `SrecRecords.KeysAreWritten` state its meaning |
| SrecRecords.Parse | soft/srec2text.py:31-64 | no contract of its own; `ParseFrom` from the empty map, computed by `SrecParser.ParseSrec`; `SrecRecords.LaterRecordWins` and `Srec2Text.SingleRecord` state its results |
| SrecRecords.StoreSpec | soft/srec2text.py:62-64 | after writing a payload at an address, those keys hold the payload bytes, other keys keep their values, and no other key appears |
| SrecRecords.IgnoredLine | soft/srec2text.py:35 | a line that decodes as ignored leaves the rest of the run unaffected |
| SrecRecords.IgnoredLinesKeepMap | soft/srec2text.py:33-44 | lines that all decode as ignored leave the map exactly as it was |
| SrecRecords.BlankLineIgnored | soft/srec2text.py:34-35 | an all-whitespace line is ignored and does not change the outcome of the rest |
| SrecRecords.NonDataRecordIgnored | soft/srec2text.py:41-44 | records of type 0, 5, 6, 7, 8, 9 are ignored and do not change the outcome of the rest |
| SrecRecords.TypeCharRejected | soft/srec2text.py:38 | a line that strips to one character, or whose type character is not a decimal digit, stops the run as Malformed with the stripped line |
| SrecRecords.TypeFourRejected | soft/srec2text.py:55-57 | a type-4 record is the decoding error that quotes the stripped line |
| SrecRecords.DataFields | soft/srec2text.py:46-63 | for type t in 1..3: the count is the field at 2..4 less t+2 (none when that is ≤ 0), the address is the field from offset 4 to 2t+6, payload byte i is read at 2t+6+2i; the record decodes exactly when all of these parse, the address then fits 16, 24 or 32 bits and the payload has exactly count bytes; any failure is Malformed, quoting the record |
| SrecRecords.ShortLineNoBytes | soft/srec2text.py:46-62 | `S10312`, too short for a four-digit address, parses to address 0x12 with no bytes |
| SrecRecords.ShortLineOneDigit | soft/srec2text.py:46-64 | `S1041234A` parses to the single byte 0x0A at 0x1234: a one-digit payload slice reads as that digit |
| SrecRecords.ShortLineNoPayload | soft/srec2text.py:46-63 | `S10512`, whose count asks for two bytes it does not have, is Malformed |
| SrecRecords.DataRecordDispatch | soft/srec2text.py:46-54 | a line whose type digit is 1, 2 or 3 is decoded as a data record of that type |
| SrecRecords.ParseAppend | soft/srec2text.py:33 | lines are processed in order: parsing `xs + ys` is parsing `xs`, then continuing with `ys` from that map unless `xs` failed |
| SrecRecords.ParseOne | soft/srec2text.py:33-64 | a file of one line has exactly that line's effect |
| SrecRecords.LaterRecordWins | soft/srec2text.py:64 | after a further data record, its addresses hold its bytes whatever earlier records wrote, other addresses are unchanged, and no other key appears |
| SrecRecords.FirstErrorStops | soft/srec2text.py:55-57 | a failing line ends the run with its error, whatever lines follow |
| SrecRecords.KeysAreWritten | soft/srec2text.py:62-64 | an address is in the final map exactly when some data record wrote it: nothing is fabricated and nothing is lost |
| SrecRecords.EncodeRecord | soft/srec2text.py:46-63 | an S1/S2/S3 line laid out as the decoder reads it is 2t+6 characters of header, two per payload byte, and two of checksum |
| SrecRecords.EncodeDecode | soft/srec2text.py:46-63 | decoding a well-formed S1/S2/S3 line gives back its address and payload, for any checksum byte (the checksum is never checked) |
| SrecParser.ProcessLine | soft/srec2text.py:34-64 | one iteration of the line loop has exactly the effect `ApplyLine` gives: ignore, write the payload, or the line's error |
| SrecParser.StoreBytes | soft/srec2text.py:62-64 | the inner loop writes payload byte i at address + i, for exactly the bytes the count allows and none when it is ≤ 0; a byte that is not hex stops it |
| SrecParser.ParseSrec | soft/srec2text.py:31-64 | Phase 1 computes `Parse`: the map from all lines, or the first error |
| Words.Assemble | soft/srec2text.py:92 | every assembled word is below 2^32 |
| Words.Fetch | soft/srec2text.py:86-89 | no contract of its own; `Words.ListingWord` states that a present byte is read and an absent one is 0xFF |
| Words.WordAt | soft/srec2text.py:86-92 | no contract of its own; `Words.ListingWord` and `Words.ListingCovers` state which byte lands where |
| Words.AssembleRecover | soft/srec2text.py:91-92 | byte k of the word is b_k: b0 is the least significant byte and b3 the most significant |
| Words.AlignDown | soft/srec2text.py:82 | the start address is a multiple of 4 with start ≤ a < start + 4 |
| Words.MinKey | soft/srec2text.py:78 | `min` of the keys is a key no larger than any key |
| Words.MaxKey | soft/srec2text.py:79 | `max` of the keys is a key no smaller than any key |
| Words.Listing | soft/srec2text.py:74-76 | the listing is an error exactly when the map is empty, and that error is NoData |
| Words.ListingAddresses | soft/srec2text.py:82-84 | the first address is the lowest key rounded down; each next address is 4 higher; all are aligned and at most the highest key; the last word reaches the highest key |
| Words.ListingAscending | soft/srec2text.py:84 | emitted addresses strictly ascend |
| Words.ListingWord | soft/srec2text.py:86-92 | each word is below 2^32, and byte k of it is the map's byte at address + k, or 0xFF where there is none |
| Words.ListingPastEnd | soft/srec2text.py:84-89 | bytes past the highest key are always filled with 0xFF |
| Words.ListingCovers | soft/srec2text.py:78-92 | every key lies in the word at its own address rounded down, and that word carries its byte |
| Output.FormatEntry | soft/srec2text.py:93 | an output line is at least 14 characters long |
| Output.FormatRoundTrip | soft/srec2text.py:93 | an output line reads back to its address (lower-case digits, no leading zero, exactly `0x0` for address 0) and its eight-digit word (upper-case digits) |
| WordEmitter.KeyRange | soft/srec2text.py:78-79 | returns keys of the map that bound every key from below and above |
| WordEmitter.EmitWords | soft/srec2text.py:74-92 | Phase 2 computes `Listing`: NoData for an empty map, else one word per aligned step |
| Srec2Text.Convert | soft/srec2text.py:31-92 | no contract of its own; `Srec2Text.NoDataExactly`, `Srec2Text.TypeFourStops` and `Srec2Text.BytesSwapped` state its results; `Srec2Text.Run` computes it |
| Srec2Text.Run | soft/srec2text.py:31-92 | the whole run computes `Convert`: Phase 1's error, or Phase 2's result on Phase 1's map |
| Srec2Text.DecodeErrorIsLineError | soft/srec2text.py:55-57 | a line's error is UnsupportedType or Malformed, each quoting the stripped line |
| Srec2Text.ParseErrorIsLineError | soft/srec2text.py:74-76 | Phase 1 never reports NoData |
| Srec2Text.NoDataExactly | soft/srec2text.py:74-76 | "no data" happens exactly when every line parses and none wrote a byte |
| Srec2Text.OnlyIgnoredLinesNoData | soft/srec2text.py:41-44 | a file of only headers, counts and end records ends with "no data" |
| Srec2Text.TypeFourStops | soft/srec2text.py:55-57 | a type-4 record after lines that parse ends the run with the quoting error and no words, whatever follows |
| Srec2Text.GapFilled | soft/srec2text.py:82-92 | the single byte 0x42 at address 5 lists as the one word 0xFFFF42FF at address 4 |
| Srec2Text.SingleRecord | soft/srec2text.py:33-64 | a file of one well-formed data record parses to exactly that record's bytes |
| Srec2Text.OneWordListing | soft/srec2text.py:82-92 | a map holding exactly the four bytes of an aligned word lists as that word alone |
| Srec2Text.FourBytesStored | soft/srec2text.py:62-64 | storing four bytes at `a` fills keys a..a+3, whose word is those bytes assembled |
| Srec2Text.AlignedRecordIsOneWord | soft/srec2text.py:46-92 | one four-byte data record at an aligned address lists as the single word of its bytes |
| Srec2Text.BytesSwapped | soft/srec2text.py:91-92 | an S1 record with AA BB CC DD at 0x10 lists as the word 0xDDCCBBAA at 0x10 |

## Left out

- Command-line handling is not modelled (the argument count check and usage text, lines 13-18). The input is a sequence of lines.
- File handling is not modelled: opening the file, the open-failure message, reading lines from the handle, and closing it (lines 20-24, 33, 66).
- Console output is not modelled: `print` and `sys.exit(0)` (lines 56-57, 75-76, 93).
  - A stopped run is an `Err` value, not a message and an exit status.
  - The message texts themselves are not modelled. The type-4 message's content, the stripped line, is kept in `UnsupportedType`.
  - The stream of output lines is not modelled.
- Python's exception kinds are not modelled (IndexError and ValueError from lines 38, 47-53, 59 and 63). They all become `Malformed(entry)`. No traceback is modelled.
- Hex.ParseHex: accepts only plain ASCII hex digits. Python's `int(x, 16)` also accepts a sign, surrounding whitespace, `_` between digits, a `0x` prefix and non-ASCII Unicode decimal digits (such as Arabic-Indic digits). So a negative count or a negative address, which those forms can spell, is not modelled. Such lines are `Malformed` here.
- SrecRecords.TypeDigit: accepts only the ASCII digits. Python's `int(entry[1])` also accepts other Unicode decimal digits.
- Text.IsSpace: follows the Unicode whitespace set of `str.isspace` by code point. It is not derived from a Unicode database.
- Words.Assemble: is written as `b3·2^24 + b2·2^16 + b1·2^8 + b0`, the value of the shift-and-or expression for bytes below 256. The bitwise form itself is not stated.
- Words.AlignDown: is written as `a − a mod 4`. This equals `a & ~0x3` on the non-negative addresses the model admits.
- Output.FormatEntry: requires a word below 2^32. `{:08X}` on a wider value would print more digits, but every word the emitter produces is narrower.
- The digit order of the printed word is not stated as a lemma. The digit-order property is that the printed digits are b3, b2, b1, b0 in that order. `Words.AssembleRecover` states the same fact numerically.
- The checksum byte is consumed only through the count arithmetic and is never validated. `SrecRecords.EncodeDecode` holds for every checksum value.
- Phase 2 never writes into the map. `WordEmitter.EmitWords` receives the map as a value, so that holds by construction and has no lemma of its own.
