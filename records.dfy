/**
  What one SREC line means and what a whole file does to the byte map
  (soft/srec2text.py, Phase 1), as functions. The imperative parser in
  module SrecParser is proved equal to `Parse`.
 */
module SrecRecords {
  import opened Results
  import opened Hex
  import opened Text

  /** The sparse memory image: absolute address to byte value. */
  type ByteMap = map<nat, Byte>

  /** A non-blank line either contributes nothing or writes a payload at an address. */
  datatype Record = Ignored | Data(address: nat, payload: seq<Byte>)

  /**
    Why a run stops. UnsupportedType is the script's own decoding error for a
    record type with no branch (it carries the stripped line); Malformed covers
    a line the interpreter cannot read (too short for a type digit, a type that
    is not a digit, a field that is not hexadecimal); NoData is the empty image.
   */
  datatype Error = UnsupportedType(line: string) | Malformed(line: string) | NoData

  /** `int(c)` on the single type character. */
  function TypeDigit(c: char): (r: Option<nat>)
    ensures r.Some? <==> '0' <= c <= '9'
    ensures r.Some? ==> r.value < 10
  {
    if '0' <= c <= '9' then Some(c as nat - '0' as nat) else None
  }

  /** Bytes of a data record that are not payload (address and checksum), per type. */
  function Overhead(t: nat): (r: nat)
    requires 1 <= t <= 3
  {
    if t == 1 then 3 else if t == 2 then 4 else 5
  }

  /** Offset of the first payload digit, per type. */
  function DataStart(t: nat): (r: nat)
    requires 1 <= t <= 3
  {
    if t == 1 then 8 else if t == 2 then 10 else 12
  }

  /** The `i`-th payload byte, read from the two characters at `start + 2*i`. */
  function ByteAt(entry: string, start: nat, i: nat): (r: Option<Byte>)
  {
    var field := Slice(entry, start + i * 2, start + i * 2 + 2);
    match ParseHex(field)
    case None => None
    case Some(v) => assert v < Pow16(|field|) <= 256; Some(v)
  }

  /** The first `n` payload bytes; None as soon as one of them fails to decode. */
  function DecodeBytes(entry: string, start: nat, n: nat): (r: Option<seq<Byte>>)
    ensures r.Some? <==> forall i :: 0 <= i < n ==> ByteAt(entry, start, i).Some?
    ensures r.Some? ==> |r.value| == n
    ensures r.Some? ==> forall i :: 0 <= i < n ==> r.value[i] == ByteAt(entry, start, i).value
  {
    if n == 0 then Some([])
    else
      match DecodeBytes(entry, start, n - 1)
      case None => None
      case Some(bs) =>
        match ByteAt(entry, start, n - 1)
        case None => None
        case Some(b) => Some(bs + [b])
  }

  /**
    One line of the input. Blank lines and record types 0, 5, 6, 7, 8, 9 are
    Ignored; types 1, 2, 3 carry a 16-, 24- or 32-bit address; the one digit left,
    4, is the script's decoding error. A byte count of zero or less reads no payload.
   */
  function DecodeRecord(line: string): (r: Result<Record, Error>) {
    var entry := Strip(line);
    if |entry| == 0 then Ok(Ignored)
    else if |entry| < 2 then Err(Malformed(entry))
    else
      match TypeDigit(entry[1])
      case None => Err(Malformed(entry))
      case Some(t) =>
        if t == 0 || t == 5 || t == 6 then Ok(Ignored)
        else if t == 7 || t == 8 || t == 9 then Ok(Ignored)
        else if t == 4 then Err(UnsupportedType(entry))
        else DecodeData(entry, t)
  }

  /** The fields of a stripped data record of type 1, 2 or 3. */
  function DecodeData(entry: string, t: nat): (r: Result<Record, Error>)
    requires 1 <= t <= 3
  {
    match ParseHex(Slice(entry, 2, 4))
    case None => Err(Malformed(entry))
    case Some(field) =>
      var byteCnt := field - Overhead(t);
      match ParseHex(Slice(entry, 4, DataStart(t)))
      case None => Err(Malformed(entry))
      case Some(address) =>
        match DecodeBytes(entry, DataStart(t), if byteCnt > 0 then byteCnt else 0)
        case None => Err(Malformed(entry))
        case Some(payload) => Ok(Data(address, payload))
  }

  /**
    `m` after writing `payload[i]` at `address + i` for each i in turn: those
    keys take the payload's values (whatever they held before) and every other
    key keeps its value.
   */
  function Store(m: ByteMap, address: nat, payload: seq<Byte>): (r: ByteMap) {
    if |payload| == 0 then m
    else Store(m, address, payload[..|payload| - 1])[address + |payload| - 1 := payload[|payload| - 1]]
  }

  /** What Store writes, what it keeps, and that it adds no other key. */
  lemma {:induction false} StoreSpec(m: ByteMap, address: nat, payload: seq<Byte>)
    ensures var r := Store(m, address, payload);
      && (forall k :: k in r <==> k in m || address <= k < address + |payload|)
      && (forall i :: 0 <= i < |payload| ==> r[address + i] == payload[i])
      && (forall k :: k in m && !(address <= k < address + |payload|) ==> r[k] == m[k])
    decreases |payload|
  {
    if |payload| > 0 {
      StoreSpec(m, address, payload[..|payload| - 1]);
    }
  }

  /** The effect of one line on the map `m`. */
  function ApplyLine(m: ByteMap, line: string): (r: Result<ByteMap, Error>) {
    match DecodeRecord(line)
    case Err(e) => Err(e)
    case Ok(Ignored) => Ok(m)
    case Ok(Data(address, payload)) => Ok(Store(m, address, payload))
  }

  /** The effect of the lines on the map `m`, first line first; the first error stops the run. */
  function ParseFrom(m: ByteMap, lines: seq<string>): (r: Result<ByteMap, Error>)
    decreases |lines|
  {
    if |lines| == 0 then Ok(m)
    else
      match ApplyLine(m, lines[0])
      case Err(e) => Err(e)
      case Ok(m') => ParseFrom(m', lines[1..])
  }

  /** Phase 1 of the script: the byte map of a whole file, starting from the empty map. */
  function Parse(lines: seq<string>): (r: Result<ByteMap, Error>) {
    ParseFrom(map[], lines)
  }

  // ---------------------------------------------------------------------------
  // Properties of single lines

  /** A line that decodes to Ignored leaves the map as it is. */
  lemma IgnoredLine(m: ByteMap, line: string, rest: seq<string>)
    requires DecodeRecord(line) == Ok(Ignored)
    ensures ParseFrom(m, [line] + rest) == ParseFrom(m, rest)
  {
    assert ([line] + rest)[1..] == rest;
  }

  /** Lines that all decode as Ignored leave the map as it was. */
  lemma {:induction false} IgnoredLinesKeepMap(m: ByteMap, lines: seq<string>)
    requires forall i :: 0 <= i < |lines| ==> DecodeRecord(lines[i]) == Ok(Ignored)
    ensures ParseFrom(m, lines) == Ok(m)
    decreases |lines|
  {
    if |lines| > 0 {
      IgnoredLinesKeepMap(m, lines[1..]);
    }
  }

  /** A line that is empty after stripping (only whitespace) contributes nothing. */
  lemma BlankLineIgnored(m: ByteMap, line: string, rest: seq<string>)
    requires AllSpace(line)
    ensures DecodeRecord(line) == Ok(Ignored)
    ensures ParseFrom(m, [line] + rest) == ParseFrom(m, rest)
  {
    StripSpec(line);
    IgnoredLine(m, line, rest);
  }

  /** Header, count and termination records (types 0, 5, 6, 7, 8, 9) contribute nothing. */
  lemma NonDataRecordIgnored(m: ByteMap, line: string, rest: seq<string>)
    requires |Strip(line)| >= 2 && Strip(line)[1] in "056789"
    ensures DecodeRecord(line) == Ok(Ignored)
    ensures ParseFrom(m, [line] + rest) == ParseFrom(m, rest)
  {
    IgnoredLine(m, line, rest);
  }

  /** A line too short for its address field still parses: `S10312` has count 0 and address 0x12. */
  lemma ShortLineNoBytes()
    ensures DecodeRecord("S10312") == Ok(Data(0x12, []))
  {
    var e := "S10312";
    StripUnchanged(e);
    assert TypeDigit(e[1]) == Some(1);
    assert Slice(e, 2, 4) == "03" && ParseHex("03") == Some(3);
    assert Slice(e, 4, 8) == "12" && ParseHex("12") == Some(0x12);
  }

  /** A one-digit payload slice reads as that digit: `S1041234A` writes 0x0A at 0x1234. */
  lemma ShortLineOneDigit()
    ensures DecodeRecord("S1041234A") == Ok(Data(0x1234, [0x0A]))
  {
    var e := "S1041234A";
    StripUnchanged(e);
    assert TypeDigit(e[1]) == Some(1);
    assert Slice(e, 2, 4) == "04" && ParseHex("04") == Some(4);
    assert "1234"[..3] == "123" && "123"[..2] == "12" && "12"[..1] == "1";
    assert DigitsValue("12") == Some(0x12) && DigitsValue("123") == Some(0x123);
    assert Slice(e, 4, 8) == "1234" && ParseHex("1234") == Some(0x1234);
    assert Slice(e, 8 + 0 * 2, 8 + 0 * 2 + 2) == "A" && ParseHex("A") == Some(0x0A);
    assert ByteAt(e, 8, 0) == Some(0x0A);
    var one: seq<Byte> := [0x0A];
    assert DecodeBytes(e, 8, 0) == Some([]) && [] + one == one;
    assert DecodeBytes(e, 8, 1) == Some(one);
  }

  /** Only an empty slice fails: `S10512` asks for two payload bytes and has none. */
  lemma ShortLineNoPayload()
    ensures DecodeRecord("S10512") == Err(Malformed("S10512"))
  {
    var e := "S10512";
    StripUnchanged(e);
    assert TypeDigit(e[1]) == Some(1);
    assert Slice(e, 2, 4) == "05" && ParseHex("05") == Some(5);
    assert Slice(e, 4, 8) == "12" && ParseHex("12") == Some(0x12);
    assert Slice(e, 8, 10) == "" && ByteAt(e, 8, 0).None?;
    assert DecodeBytes(e, 8, 2).None?;
  }

  /**
    `int(entry[1])` fails on a line that strips to one character (no type
    character) and on a type character that is not a decimal digit: the run
    stops, reported as Malformed with the stripped line.
   */
  lemma TypeCharRejected(line: string)
    requires |Strip(line)| == 1 || (|Strip(line)| >= 2 && !('0' <= Strip(line)[1] <= '9'))
    ensures DecodeRecord(line) == Err(Malformed(Strip(line)))
  {
  }

  /** Type 4 has no branch: the decoding error carries the stripped line. */
  lemma TypeFourRejected(line: string)
    requires |Strip(line)| >= 2 && Strip(line)[1] == '4'
    ensures DecodeRecord(line) == Err(UnsupportedType(Strip(line)))
  {
  }

  /**
    The layout of a data record of type t (1, 2, 3): the byte count is the
    two-digit field at offset 2 less t + 2 (3, 4 or 5); the address is the field
    from offset 4 up to offset 2*t + 6 (8, 10 or 12), where the payload starts;
    payload byte i is the two digits at that offset plus 2*i. The record decodes
    exactly when every field read does, and the address then fits 16, 24 or 32 bits.
   */
  lemma DataFields(entry: string, t: nat)
    requires 1 <= t <= 3
    ensures var ds := 2 * t + 6;
      var field := ParseHex(Slice(entry, 2, 4));
      var address := ParseHex(Slice(entry, 4, ds));
      var cnt := if field.Some? && field.value > t + 2 then field.value - (t + 2) else 0;
      var r := DecodeData(entry, t);
      && (r.Ok? <==> field.Some? && address.Some? && forall i :: 0 <= i < cnt ==> ByteAt(entry, ds, i).Some?)
      && (r.Ok? ==>
           && r.value.Data? && r.value.address == address.value
           && address.value < Pow16(2 * t + 2)
           && |r.value.payload| == cnt
           && forall i :: 0 <= i < cnt ==> ByteAt(entry, ds, i) == Some(r.value.payload[i]))
      && (r.Err? ==> r.error == Malformed(entry))
  {
    DataFieldsDecode(entry, t);
    DataFieldsValues(entry, t);
  }

  lemma DataFieldsDecode(entry: string, t: nat)
    requires 1 <= t <= 3
    ensures var ds := 2 * t + 6;
      var field := ParseHex(Slice(entry, 2, 4));
      var address := ParseHex(Slice(entry, 4, ds));
      var cnt := if field.Some? && field.value > t + 2 then field.value - (t + 2) else 0;
      var r := DecodeData(entry, t);
      && (r.Ok? <==> field.Some? && address.Some? && forall i :: 0 <= i < cnt ==> ByteAt(entry, ds, i).Some?)
      && (r.Err? ==> r.error == Malformed(entry))
  {
    assert DataStart(t) == 2 * t + 6 && Overhead(t) == t + 2;
  }

  lemma DataFieldsValues(entry: string, t: nat)
    requires 1 <= t <= 3
    ensures var ds := 2 * t + 6;
      var field := ParseHex(Slice(entry, 2, 4));
      var address := ParseHex(Slice(entry, 4, ds));
      var cnt := if field.Some? && field.value > t + 2 then field.value - (t + 2) else 0;
      var r := DecodeData(entry, t);
      r.Ok? ==>
        && r.value.Data? && r.value.address == address.value
        && address.value < Pow16(2 * t + 2)
        && |r.value.payload| == cnt
        && forall i :: 0 <= i < cnt ==> ByteAt(entry, ds, i) == Some(r.value.payload[i])
  {
    assert DataStart(t) == 2 * t + 6 && Overhead(t) == t + 2;
    var ds := DataStart(t);
    assert |Slice(entry, 4, ds)| <= 2 * t + 2;
    var address := ParseHex(Slice(entry, 4, ds));
    if address.Some? {
      PowMonotone(|Slice(entry, 4, ds)|, 2 * t + 2);
    }
  }

  lemma {:induction false} PowMonotone(a: nat, b: nat)
    requires a <= b
    ensures Pow16(a) <= Pow16(b)
  {
    if a < b {
      PowMonotone(a, b - 1);
    }
  }

  // ---------------------------------------------------------------------------
  // Properties of whole files

  /** Running the lines `xs + ys` is running `xs`, then `ys` on the map `xs` left. */
  lemma {:induction false} ParseAppend(m: ByteMap, xs: seq<string>, ys: seq<string>)
    ensures ParseFrom(m, xs + ys) ==
      match ParseFrom(m, xs)
      case Err(e) => Err(e)
      case Ok(m') => ParseFrom(m', ys)
    decreases |xs|
  {
    if |xs| > 0 {
      assert (xs + ys)[0] == xs[0];
      assert (xs + ys)[1..] == xs[1..] + ys;
      match ApplyLine(m, xs[0])
      case Err(_) =>
      case Ok(m') => ParseAppend(m', xs[1..], ys);
    } else {
      assert xs + ys == ys;
    }
  }

  /**
    Overwrite wins: after a data record read last, each of its addresses holds
    that record's byte, whatever earlier records wrote there, and every other
    address is as the earlier lines left it.
   */
  lemma LaterRecordWins(lines: seq<string>, line: string, a: nat, payload: seq<Byte>)
    requires Parse(lines).Ok?
    requires DecodeRecord(line) == Ok(Data(a, payload))
    ensures Parse(lines + [line]).Ok?
    ensures var before, after := Parse(lines).value, Parse(lines + [line]).value;
      && (forall i :: 0 <= i < |payload| ==> a + i in after && after[a + i] == payload[i])
      && (forall k :: k in before && !(a <= k < a + |payload|) ==> k in after && after[k] == before[k])
      && (forall k :: k in after ==> k in before || a <= k < a + |payload|)
  {
    var before := Parse(lines).value;
    var after := Store(before, a, payload);
    StoreSpec(before, a, payload);
    ParseAppend(map[], lines, [line]);
    ParseOne(before, line);
    assert Parse(lines + [line]) == Ok(after);
    forall i | 0 <= i < |payload| ensures a + i in after && after[a + i] == payload[i] {
      assert a <= a + i < a + |payload|;
    }
  }

  /** The effect of a single line. */
  lemma ParseOne(m: ByteMap, line: string)
    ensures ParseFrom(m, [line]) == ApplyLine(m, line)
  {
    assert [line][1..] == [];
  }

  /** A line that fails stops the run with its error, whatever follows it. */
  lemma FirstErrorStops(lines: seq<string>, line: string, rest: seq<string>, e: Error)
    requires Parse(lines).Ok?
    requires DecodeRecord(line) == Err(e)
    ensures Parse(lines + [line] + rest) == Err(e)
  {
    ParseAppend(map[], lines + [line], rest);
    ParseAppend(map[], lines, [line]);
  }

  /** Some data record among `lines` writes address `k`. */
  ghost predicate Written(lines: seq<string>, k: nat)
    decreases |lines|
  {
    && |lines| > 0
    && ((DecodeRecord(lines[0]).Ok? && DecodeRecord(lines[0]).value.Data?
         && var r := DecodeRecord(lines[0]).value; r.address <= k < r.address + |r.payload|)
        || Written(lines[1..], k))
  }

  /**
    Every key of the final map was written by a data record, and every address
    a data record wrote is a key: the parser fabricates no entry.
   */
  lemma {:induction false} KeysAreWritten(m: ByteMap, lines: seq<string>, k: nat)
    requires ParseFrom(m, lines).Ok?
    ensures k in ParseFrom(m, lines).value <==> k in m || Written(lines, k)
    decreases |lines|
  {
    if |lines| > 0 {
      var r := DecodeRecord(lines[0]);
      if r.Ok? && r.value.Data? {
        StoreSpec(m, r.value.address, r.value.payload);
      }
      KeysAreWritten(ApplyLine(m, lines[0]).value, lines[1..], k);
    }
  }

  // ---------------------------------------------------------------------------
  // Writing a data record: the inverse of DecodeRecord on types 1, 2, 3

  /** The payload as two upper-case digits per byte. */
  function HexBytes(bs: seq<Byte>): (s: string)
    ensures |s| == 2 * |bs|
  {
    if |bs| == 0 then [] else HexBytes(bs[..|bs| - 1]) + HexOf(bs[|bs| - 1], 2, true)
  }

  /** Byte i of the payload is written at offset 2*i. */
  lemma {:induction false} HexBytesAt(bs: seq<Byte>, i: nat)
    requires i < |bs|
    ensures HexBytes(bs)[2 * i..2 * i + 2] == HexOf(bs[i], 2, true)
  {
    var init := HexBytes(bs[..|bs| - 1]);
    var s := HexBytes(bs);
    if i < |bs| - 1 {
      HexBytesAt(bs[..|bs| - 1], i);
      assert s[2 * i..2 * i + 2] == init[2 * i..2 * i + 2];
    } else {
      assert s[2 * i..2 * i + 2] == s[|init|..];
    }
  }

  /**
    An S1/S2/S3 line for `payload` at `address` with any checksum byte: "S",
    the type digit, the count, 4/6/8 address digits, the payload, the checksum.
   */
  function EncodeRecord(t: nat, address: nat, payload: seq<Byte>, checksum: Byte): (s: string)
    requires 1 <= t <= 3
    requires address < Pow16(DataStart(t) - 4)
    requires |payload| + Overhead(t) < 256
    ensures |s| == DataStart(t) + 2 * |payload| + 2
  {
    "S" + [DigitChar(t, true)] + HexOf(|payload| + Overhead(t), 2, true)
      + HexOf(address, DataStart(t) - 4, true) + HexBytes(payload) + HexOf(checksum, 2, true)
  }

  /** The middle part of a concatenation, as a slice. */
  lemma SliceMiddle(a: string, b: string, c: string)
    ensures Slice(a + b + c, |a|, |a| + |b|) == b
  {
    assert (a + b + c)[|a|..|a| + |b|] == b;
  }

  /** A written record starts with "S" and ends with a digit, so stripping leaves it alone. */
  lemma EncodedIsStripped(t: nat, address: nat, payload: seq<Byte>, checksum: Byte)
    requires 1 <= t <= 3
    requires address < Pow16(DataStart(t) - 4)
    requires |payload| + Overhead(t) < 256
    ensures var s := EncodeRecord(t, address, payload, checksum); Strip(s) == s
  {
    var s := EncodeRecord(t, address, payload, checksum);
    var sum := HexOf(checksum, 2, true);
    assert s[0] == 'S';
    assert s[|s| - 1] == sum[1];
    assert AllHexDigits(sum);
    StripUnchanged(s);
  }

  /** The type digit, count and address fields of a written data record read back as they were written. */
  lemma EncodedFields(t: nat, address: nat, payload: seq<Byte>, checksum: Byte)
    requires 1 <= t <= 3
    requires address < Pow16(DataStart(t) - 4)
    requires |payload| + Overhead(t) < 256
    ensures var s := EncodeRecord(t, address, payload, checksum);
      && TypeDigit(s[1]) == Some(t)
      && ParseHex(Slice(s, 2, 4)) == Some(|payload| + Overhead(t))
      && ParseHex(Slice(s, 4, DataStart(t))) == Some(address)
  {
    var head := "S" + [DigitChar(t, true)];
    var count := HexOf(|payload| + Overhead(t), 2, true);
    var addr := HexOf(address, DataStart(t) - 4, true);
    var tail := HexBytes(payload) + HexOf(checksum, 2, true);
    var s := EncodeRecord(t, address, payload, checksum);
    assert s == head + count + addr + tail;
    HeaderFields(head, count, addr, tail);
    assert TypeDigit(s[1]) == Some(t);
    assert ParseHex(Slice(s, 2, 4)) == Some(|payload| + Overhead(t)) by {
      HexOfRoundTrip(|payload| + Overhead(t), 2, true);
    }
    assert ParseHex(Slice(s, 4, DataStart(t))) == Some(address) by {
      HexOfRoundTrip(address, DataStart(t) - 4, true);
    }
  }

  lemma HeaderFields(head: string, count: string, addr: string, tail: string)
    requires |head| == 2 && |count| == 2
    ensures var s := head + count + addr + tail;
      && s[1] == head[1]
      && Slice(s, 2, 4) == count
      && Slice(s, 4, 4 + |addr|) == addr
  {
    var s := head + count + addr + tail;
    SliceMiddle(head, count, addr + tail);
    assert s == head + count + (addr + tail);
    SliceMiddle(head + count, addr, tail);
  }

  /** The payload of a written data record reads back byte for byte. */
  lemma EncodedPayload(t: nat, address: nat, payload: seq<Byte>, checksum: Byte)
    requires 1 <= t <= 3
    requires address < Pow16(DataStart(t) - 4)
    requires |payload| + Overhead(t) < 256
    ensures DecodeBytes(EncodeRecord(t, address, payload, checksum), DataStart(t), |payload|) == Some(payload)
  {
    var s := EncodeRecord(t, address, payload, checksum);
    forall i | 0 <= i < |payload|
      ensures ByteAt(s, DataStart(t), i) == Some(payload[i])
    {
      EncodedByte(t, address, payload, checksum, i);
    }
    var r := DecodeBytes(s, DataStart(t), |payload|);
    assert r.Some?;
    assert r.value == payload;
  }

  lemma EncodedByte(t: nat, address: nat, payload: seq<Byte>, checksum: Byte, i: nat)
    requires 1 <= t <= 3
    requires address < Pow16(DataStart(t) - 4)
    requires |payload| + Overhead(t) < 256
    requires i < |payload|
    ensures ByteAt(EncodeRecord(t, address, payload, checksum), DataStart(t), i) == Some(payload[i])
  {
    var data := HexBytes(payload);
    var head := "S" + [DigitChar(t, true)] + HexOf(|payload| + Overhead(t), 2, true) + HexOf(address, DataStart(t) - 4, true);
    var sum := HexOf(checksum, 2, true);
    assert EncodeRecord(t, address, payload, checksum) == head + data + sum;
    PayloadByte(head, data, sum, i);
    HexBytesAt(payload, i);
    HexOfRoundTrip(payload[i], 2, true);
  }

  lemma PayloadByte(head: string, data: string, sum: string, i: nat)
    requires 2 * i + 2 <= |data|
    ensures Slice(head + data + sum, |head| + i * 2, |head| + i * 2 + 2) == data[2 * i..2 * i + 2]
  {
    assert (head + data + sum)[|head| + i * 2..|head| + i * 2 + 2] == data[2 * i..2 * i + 2];
  }

  /** Decoding a written data record gives back its address and payload; the checksum is never checked. */
  lemma EncodeDecode(t: nat, address: nat, payload: seq<Byte>, checksum: Byte)
    requires 1 <= t <= 3
    requires address < Pow16(DataStart(t) - 4)
    requires |payload| + Overhead(t) < 256
    ensures DecodeRecord(EncodeRecord(t, address, payload, checksum)) == Ok(Data(address, payload))
  {
    var s := EncodeRecord(t, address, payload, checksum);
    EncodedIsStripped(t, address, payload, checksum);
    EncodedFields(t, address, payload, checksum);
    EncodedPayload(t, address, payload, checksum);
    DataFromFields(s, t, address, payload);
    DataRecordOf(s, t);
  }

  lemma DataRecordOf(s: string, t: nat)
    requires 1 <= t <= 3 && |s| >= 2
    requires Strip(s) == s && TypeDigit(s[1]) == Some(t)
    ensures DecodeRecord(s) == DecodeData(s, t)
  {
    DataRecordDispatch(s, t);
  }

  /** A stripped line whose type digit is 1, 2 or 3 is read as a data record of that type. */
  lemma DataRecordDispatch(s: string, t: nat)
    requires 1 <= t <= 3 && |Strip(s)| >= 2
    requires TypeDigit(Strip(s)[1]) == Some(t)
    ensures DecodeRecord(s) == DecodeData(Strip(s), t)
  {
  }

  lemma DataFromFields(s: string, t: nat, address: nat, payload: seq<Byte>)
    requires 1 <= t <= 3
    requires ParseHex(Slice(s, 2, 4)) == Some(|payload| + Overhead(t))
    requires ParseHex(Slice(s, 4, DataStart(t))) == Some(address)
    requires DecodeBytes(s, DataStart(t), |payload|) == Some(payload)
    ensures DecodeData(s, t) == Ok(Data(address, payload))
  {
  }
}
