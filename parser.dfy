/**
  Phase 1 of soft/srec2text.py as the script runs it: one pass over the
  lines, each data record's bytes written into the map one at a time. The
  methods are proved to compute `SrecRecords.ApplyLine` and `SrecRecords.Parse`.
 */
module SrecParser {
  import opened Results
  import opened Hex
  import opened Text
  import opened SrecRecords

  /** The body of the script's loop over the lines: what one line does to the map. */
  method ProcessLine(byteMap: ByteMap, line: string) returns (r: Result<ByteMap, Error>)
    ensures r == ApplyLine(byteMap, line)
  {
    var entry := Strip(line);
    if |entry| == 0 {
      return Ok(byteMap);
    }
    if |entry| < 2 {
      return Err(Malformed(entry));
    }
    var sType := TypeDigit(entry[1]);
    if sType.None? {
      return Err(Malformed(entry));
    }
    var t := sType.value;

    // Types 0, 5, 6 (header, counts) and 7, 8, 9 (end records) carry no data
    if t == 0 || t == 5 || t == 6 {
      return Ok(byteMap);
    }
    if t == 7 || t == 8 || t == 9 {
      return Ok(byteMap);
    }

    var byteCnt: int;
    var dataStart: nat;
    if t == 1 || t == 2 || t == 3 {
      var field := ParseHex(Slice(entry, 2, 4));
      if field.None? {
        DataRecordDispatch(line, t);
        return Err(Malformed(entry));
      }
      if t == 1 {
        byteCnt := field.value as int - 3;
        dataStart := 8;
      } else if t == 2 {
        byteCnt := field.value as int - 4;
        dataStart := 10;
      } else {
        byteCnt := field.value as int - 5;
        dataStart := 12;
      }
    } else {
      return Err(UnsupportedType(entry));
    }
    DataRecordDispatch(line, t);
    assert byteCnt == ParseHex(Slice(entry, 2, 4)).value - Overhead(t) && dataStart == DataStart(t);

    var address := ParseHex(Slice(entry, 4, dataStart));
    if address.None? {
      return Err(Malformed(entry));
    }

    // The payload bytes, written at address, address + 1, ...
    var stored := StoreBytes(byteMap, entry, dataStart, byteCnt, address.value);
    if stored.None? {
      return Err(Malformed(entry));
    }
    return Ok(stored.value);
  }

  /** Writing one more payload byte is one map update. */
  lemma StoreAppend(m: ByteMap, address: nat, done: seq<Byte>, b: Byte, current: ByteMap, i: nat)
    requires current == Store(m, address, done) && i == |done|
    ensures current[address + i := b] == Store(m, address, done + [b])
  {
    assert (done + [b])[..|done|] == done;
  }

  /** Decoding one more byte extends the decoded prefix by that byte. */
  lemma DecodeBytesAppend(entry: string, start: nat, n: nat, done: seq<Byte>, b: Byte)
    requires DecodeBytes(entry, start, n) == Some(done)
    requires ByteAt(entry, start, n) == Some(b)
    ensures DecodeBytes(entry, start, n + 1) == Some(done + [b])
  {
  }

  /** A byte that does not decode makes every longer payload fail. */
  lemma DecodeBytesFails(entry: string, start: nat, i: nat, n: nat)
    requires i < n && ByteAt(entry, start, i).None?
    ensures DecodeBytes(entry, start, n).None?
  {
  }

  /**
    The script's inner loop: payload byte i (the two digits at `dataStart + 2*i`)
    is written at `address + i` for i below `byteCnt`, none when `byteCnt <= 0`;
    a byte that is not hexadecimal ends the run.
   */
  method StoreBytes(byteMap: ByteMap, entry: string, dataStart: nat, byteCnt: int, address: nat)
    returns (r: Option<ByteMap>)
    ensures var payload := DecodeBytes(entry, dataStart, if byteCnt > 0 then byteCnt else 0);
      r == if payload.None? then None else Some(Store(byteMap, address, payload.value))
  {
    var m := byteMap;
    ghost var done: seq<Byte> := [];
    var i := 0;
    while i < byteCnt
      invariant 0 <= i && (i <= byteCnt || i == 0)
      invariant |done| == i
      invariant DecodeBytes(entry, dataStart, i) == Some(done)
      invariant m == Store(byteMap, address, done)
    {
      var byteVal := ByteAt(entry, dataStart, i);
      if byteVal.None? {
        assert DecodeBytes(entry, dataStart, byteCnt).None? by {
          DecodeBytesFails(entry, dataStart, i, byteCnt);
        }
        return None;
      }
      StoreAppend(byteMap, address, done, byteVal.value, m, i);
      assert DecodeBytes(entry, dataStart, i + 1) == Some(done + [byteVal.value]) by {
        DecodeBytesAppend(entry, dataStart, i, done, byteVal.value);
      }
      m := m[address + i := byteVal.value];
      done := done + [byteVal.value];
      i := i + 1;
    }
    return Some(m);
  }

  /** Phase 1: the lines in order into one map, stopping at the first line that fails. */
  method ParseSrec(lines: seq<string>) returns (r: Result<ByteMap, Error>)
    ensures r == Parse(lines)
  {
    var byteMap: ByteMap := map[];
    var k := 0;
    while k < |lines|
      invariant 0 <= k <= |lines|
      invariant Parse(lines) == ParseFrom(byteMap, lines[k..])
    {
      assert lines[k..][0] == lines[k] && lines[k..][1..] == lines[k + 1..];
      var next := ProcessLine(byteMap, lines[k]);
      if next.Err? {
        return Err(next.error);
      }
      byteMap := next.value;
      k := k + 1;
    }
    assert lines[k..] == [];
    return Ok(byteMap);
  }
}
