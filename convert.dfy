/**
  The whole of soft/srec2text.py on a file's lines: Phase 1 builds the byte
  map, Phase 2 lists its words; the first error of either phase is the result.
 */
module Srec2Text {
  import opened Results
  import opened Hex
  import opened Text
  import opened SrecRecords
  import opened SrecParser
  import opened Words
  import opened WordEmitter

  /** What the script produces for the lines: the word listing or the error that stopped it. */
  ghost function Convert(lines: seq<string>): (r: Result<seq<Emitted>, Error>) {
    match Parse(lines)
    case Err(e) => Err(e)
    case Ok(m) => Listing(m)
  }

  /** The script: parse every line, then emit the words. */
  method Run(lines: seq<string>) returns (r: Result<seq<Emitted>, Error>)
    ensures r == Convert(lines)
  {
    var parsed := ParseSrec(lines);
    if parsed.Err? {
      return Err(parsed.error);
    }
    r := EmitWords(parsed.value);
  }

  /** A line's decoding fails only with one of the two line errors, each quoting the stripped line. */
  lemma DecodeErrorIsLineError(line: string)
    requires DecodeRecord(line).Err?
    ensures DecodeRecord(line).error in {UnsupportedType(Strip(line)), Malformed(Strip(line))}
  {
  }

  /** Phase 1 never reports NoData: that error belongs to Phase 2 alone. */
  lemma {:induction false} ParseErrorIsLineError(m: ByteMap, lines: seq<string>)
    requires ParseFrom(m, lines).Err?
    ensures !ParseFrom(m, lines).error.NoData?
    decreases |lines|
  {
    if |lines| > 0 {
      match ApplyLine(m, lines[0])
      case Err(_) =>
        DecodeErrorIsLineError(lines[0]);
      case Ok(m') =>
        ParseErrorIsLineError(m', lines[1..]);
    }
  }

  /** "No data" is reported exactly when every line parses and none of them wrote a byte. */
  lemma NoDataExactly(lines: seq<string>)
    ensures Convert(lines) == Err(NoData) <==> Parse(lines) == Ok(map[])
  {
    if Parse(lines).Err? {
      ParseErrorIsLineError(map[], lines);
    }
  }

  /** A file holding no data record, only headers, counts and end records, is "no data". */
  lemma OnlyIgnoredLinesNoData(lines: seq<string>)
    requires forall i :: 0 <= i < |lines| ==> DecodeRecord(lines[i]) == Ok(Ignored)
    ensures Convert(lines) == Err(NoData)
  {
    IgnoredLinesKeepMap(map[], lines);
  }

  /**
    A type-4 record after lines that parse stops the run with the decoding
    error quoting the stripped line; no word is emitted, whatever follows.
   */
  lemma TypeFourStops(lines: seq<string>, line: string, rest: seq<string>)
    requires Parse(lines).Ok?
    requires |Strip(line)| >= 2 && Strip(line)[1] == '4'
    ensures Convert(lines + [line] + rest) == Err(UnsupportedType(Strip(line)))
  {
    TypeFourRejected(line);
    FirstErrorStops(lines, line, rest, UnsupportedType(Strip(line)));
  }

  /** A single byte at address 5 lists as the word at 4, its other three bytes filled. */
  lemma GapFilled()
    ensures Listing(map[5 := 0x42]) == Ok([Emitted(4, 0xFFFF_42FF)])
  {
    var m: ByteMap := map[5 := 0x42];
    assert m.Keys == {5};
    assert MinKey(m.Keys) == 5 && MaxKey(m.Keys) == 5;
    var ws := Listing(m).value;
    assert |ws| == 1 && ws[0] == Emitted(4, WordAt(m, 4));
    assert WordAt(m, 4) == 0xFFFF_42FF;
    assert ws == [Emitted(4, 0xFFFF_42FF)];
  }

  /** A file of one well-formed data record parses to exactly that record's bytes. */
  lemma SingleRecord(t: nat, address: nat, payload: seq<Byte>, checksum: Byte)
    requires 1 <= t <= 3
    requires address < Pow16(DataStart(t) - 4)
    requires |payload| + Overhead(t) < 256
    ensures Parse([EncodeRecord(t, address, payload, checksum)]) == Ok(Store(map[], address, payload))
  {
    EncodeDecode(t, address, payload, checksum);
    ParseOne(map[], EncodeRecord(t, address, payload, checksum));
  }

  /** A map whose keys are the four addresses of one aligned word lists as that word alone. */
  lemma OneWordListing(m: ByteMap, a: nat)
    requires a % 4 == 0 && m.Keys == {a, a + 1, a + 2, a + 3}
    ensures Listing(m) == Ok([Emitted(a, WordAt(m, a))])
  {
    assert a in m.Keys;
    assert MinKey(m.Keys) == a && MaxKey(m.Keys) == a + 3;
    var ws := Listing(m).value;
    assert |ws| == 1 && ws[0] == Emitted(a, WordAt(m, a));
    assert ws == [Emitted(a, WordAt(m, a))];
  }

  /**
    One data record of four bytes at an aligned address lists as the single
    word of those bytes, the first byte least significant.
   */
  lemma AlignedRecordIsOneWord(t: nat, a: nat, b0: Byte, b1: Byte, b2: Byte, b3: Byte, checksum: Byte)
    requires 1 <= t <= 3
    requires a % 4 == 0 && a < Pow16(DataStart(t) - 4)
    ensures Convert([EncodeRecord(t, a, [b0, b1, b2, b3], checksum)]) == Ok([Emitted(a, Assemble(b0, b1, b2, b3))])
  {
    var payload := [b0, b1, b2, b3];
    SingleRecord(t, a, payload, checksum);
    var m := Store(map[], a, payload);
    FourBytesStored(a, b0, b1, b2, b3);
    OneWordListing(m, a);
  }

  /** Storing four bytes into the empty map. */
  lemma FourBytesStored(a: nat, b0: Byte, b1: Byte, b2: Byte, b3: Byte)
    ensures var m := Store(map[], a, [b0, b1, b2, b3]);
      m.Keys == {a, a + 1, a + 2, a + 3} && WordAt(m, a) == Assemble(b0, b1, b2, b3)
  {
    var payload := [b0, b1, b2, b3];
    var m := Store(map[], a, payload);
    StoreSpec(map[], a, payload);
    assert m.Keys == {a, a + 1, a + 2, a + 3};
    assert payload[0] == b0 && payload[1] == b1 && payload[2] == b2 && payload[3] == b3;
    assert m[a + 0] == b0 && m[a + 1] == b1 && m[a + 2] == b2 && m[a + 3] == b3;
  }

  /**
    An S1 record with the bytes AA BB CC DD at 0x10 lists as the single word
    0xDDCCBBAA at 0x10: the byte at the lowest address ends up least significant.
   */
  lemma BytesSwapped(checksum: Byte)
    ensures Convert([EncodeRecord(1, 0x10, [0xAA, 0xBB, 0xCC, 0xDD], checksum)])
         == Ok([Emitted(0x10, 0xDDCC_BBAA)])
  {
    assert Pow16(4) == 0x1_0000;
    AlignedRecordIsOneWord(1, 0x10, 0xAA, 0xBB, 0xCC, 0xDD, checksum);
  }
}
