/**
  Phase 2 of soft/srec2text.py as the script runs it: the lowest and highest
  addresses of the byte map, then a walk in steps of 4 from the lowest address
  rounded down, assembling one word per step. `EmitWords` is proved to compute
  `Words.Listing`.
 */
module WordEmitter {
  import opened Results
  import opened Hex
  import opened SrecRecords
  import opened Words

  /** `min(byte_map.keys())` and `max(byte_map.keys())` of a non-empty map. */
  method KeyRange(byteMap: ByteMap) returns (minAddr: nat, maxAddr: nat)
    requires byteMap != map[]
    ensures minAddr in byteMap && maxAddr in byteMap
    ensures forall k :: k in byteMap ==> minAddr <= k <= maxAddr
  {
    var keys := byteMap.Keys;
    assert keys != {} by {
      var k :| k in byteMap;
    }
    var first :| first in keys;
    minAddr, maxAddr := first, first;
    var rest := keys - {first};
    while rest != {}
      invariant rest <= keys
      invariant minAddr in keys && maxAddr in keys
      invariant forall k :: k in keys && k !in rest ==> minAddr <= k <= maxAddr
      decreases |rest|
    {
      var k :| k in rest;
      if k < minAddr {
        minAddr := k;
      }
      if k > maxAddr {
        maxAddr := k;
      }
      rest := rest - {k};
    }
  }

  /** The words of the map in address order, or NoData for an empty map. */
  method EmitWords(byteMap: ByteMap) returns (r: Result<seq<Emitted>, Error>)
    ensures r == Listing(byteMap)
  {
    if byteMap == map[] {
      return Err(NoData);
    }
    var minAddr, maxAddr := KeyRange(byteMap);
    assert minAddr == MinKey(byteMap.Keys) && maxAddr == MaxKey(byteMap.Keys);

    var startAddr := AlignDown(minAddr);
    var words: seq<Emitted> := [];
    var addr := startAddr;
    while addr <= maxAddr
      invariant addr == startAddr + 4 * |words|
      invariant addr <= maxAddr + 4
      invariant forall i :: 0 <= i < |words| ==>
        words[i] == Emitted(startAddr + 4 * i, WordAt(byteMap, startAddr + 4 * i))
    {
      var b0 := Fetch(byteMap, addr + 0);
      var b1 := Fetch(byteMap, addr + 1);
      var b2 := Fetch(byteMap, addr + 2);
      var b3 := Fetch(byteMap, addr + 3);
      var word := Assemble(b0, b1, b2, b3);
      words := words + [Emitted(addr, word)];
      addr := addr + 4;
    }
    assert |words| == (maxAddr - startAddr) / 4 + 1;
    ghost var listed := Listing(byteMap).value;
    assert forall i :: 0 <= i < |words| ==> words[i] == listed[i];
    assert words == listed;
    return Ok(words);
  }
}
