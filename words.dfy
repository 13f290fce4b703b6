/**
  Phase 2 of soft/srec2text.py as values: the listing of aligned 32-bit words
  the script emits for a byte map. Each word packs the four bytes at its
  address, the lowest address in the lowest bits; a byte no record wrote is
  read as 0xFF.
 */
module Words {
  import opened Results
  import opened Hex
  import opened SrecRecords

  /** The value read for an address no record wrote. */
  const Fill: Byte := 0xFF

  /** The byte at address `a`, or the fill value when there is none. */
  function Fetch(m: ByteMap, a: nat): (b: Byte) {
    if a in m then m[a] else Fill
  }

  /**
    `b3 << 24 | b2 << 16 | b1 << 8 | b0`. The four bytes occupy disjoint bit
    ranges, so the or is a sum of shifted values.
   */
  function Assemble(b0: Byte, b1: Byte, b2: Byte, b3: Byte): (w: nat)
    ensures w < 0x1_0000_0000
  {
    b3 * 0x100_0000 + b2 * 0x1_0000 + b1 * 0x100 + b0
  }

  /** Byte k of a word, byte 0 being the least significant. */
  function ByteOfWord(w: nat, k: nat): (b: Byte)
    requires k < 4
  {
    if k == 0 then w % 0x100
    else if k == 1 then (w / 0x100) % 0x100
    else if k == 2 then (w / 0x1_0000) % 0x100
    else (w / 0x100_0000) % 0x100
  }

  /** Each of the four bytes can be read back from the assembled word. */
  lemma AssembleRecover(b0: Byte, b1: Byte, b2: Byte, b3: Byte)
    ensures var w := Assemble(b0, b1, b2, b3);
      ByteOfWord(w, 0) == b0 && ByteOfWord(w, 1) == b1 && ByteOfWord(w, 2) == b2 && ByteOfWord(w, 3) == b3
  {
    var w := Assemble(b0, b1, b2, b3);
    var hi1 := b3 * 0x1_0000 + b2 * 0x100 + b1;
    var hi2 := b3 * 0x100 + b2;
    assert w == hi1 * 0x100 + b0;
    assert hi1 == hi2 * 0x100 + b1;
    assert w / 0x100 == hi1;
    assert w / 0x1_0000 == hi1 / 0x100 == hi2;
    assert w / 0x100_0000 == hi2 / 0x100 == b3;
  }

  /**
    The address rounded down to a multiple of 4 (the script's `a & ~0x3`,
    which on a non-negative address clears its two low bits).
   */
  function AlignDown(a: nat): (r: nat)
    ensures r % 4 == 0 && r <= a < r + 4
  {
    a - a % 4
  }

  /** The least element of a non-empty set of addresses. */
  ghost function MinKey(s: set<nat>): (r: nat)
    requires s != {}
    ensures r in s && forall k :: k in s ==> r <= k
    decreases |s|
  {
    var x :| x in s;
    var rest := s - {x};
    assert forall k :: k in s ==> k in rest || k == x;
    if rest == {} then x
    else
      var y := MinKey(rest);
      if x < y then x else y
  }

  /** The greatest element of a non-empty set of addresses. */
  ghost function MaxKey(s: set<nat>): (r: nat)
    requires s != {}
    ensures r in s && forall k :: k in s ==> k <= r
    decreases |s|
  {
    var x :| x in s;
    var rest := s - {x};
    assert forall k :: k in s ==> k in rest || k == x;
    if rest == {} then x
    else
      var y := MaxKey(rest);
      if x > y then x else y
  }

  /** The word at address `a`, gaps filled with 0xFF. */
  function WordAt(m: ByteMap, a: nat): (w: nat) {
    Assemble(Fetch(m, a), Fetch(m, a + 1), Fetch(m, a + 2), Fetch(m, a + 3))
  }

  /** One line of the script's output: an address and the word there. */
  datatype Emitted = Emitted(address: nat, word: nat)

  /**
    What the script emits for the map: no data is an error; otherwise one word
    for each multiple of 4 from the lowest address rounded down up to the
    highest address.
   */
  ghost function Listing(m: ByteMap): (r: Result<seq<Emitted>, Error>)
    ensures r.Err? <==> m == map[]
    ensures r.Err? ==> r.error == NoData
  {
    if m == map[] then Err(NoData)
    else
      assert m.Keys != {} by {
        var k :| k in m;
      }
      var start := AlignDown(MinKey(m.Keys));
      var n := (MaxKey(m.Keys) - start) / 4 + 1;
      Ok(seq(n, i requires 0 <= i < n => Emitted(start + 4 * i, WordAt(m, start + 4 * i))))
  }

  /**
    The emitted addresses: the first is the lowest key rounded down to a multiple
    of 4, each next one is 4 higher, all are aligned and at most the highest key,
    and the last one's word reaches the highest key.
   */
  lemma ListingAddresses(m: ByteMap)
    requires m.Keys != {}
    ensures var ws := Listing(m).value; var lo, hi := MinKey(m.Keys), MaxKey(m.Keys);
      && |ws| > 0
      && ws[0].address == AlignDown(lo)
      && (forall i :: 0 <= i < |ws| ==> ws[i].address % 4 == 0 && ws[i].address <= hi)
      && (forall i :: 0 < i < |ws| ==> ws[i].address == ws[i - 1].address + 4)
      && hi < ws[|ws| - 1].address + 4
  {
  }

  /** Emitted addresses strictly ascend. */
  lemma ListingAscending(m: ByteMap, i: nat, j: nat)
    requires m.Keys != {}
    requires i < j < |Listing(m).value|
    ensures Listing(m).value[i].address < Listing(m).value[j].address
  {
  }

  /**
    Each emitted word is below 2^32 and byte k of it is the map's byte at
    `address + k`, or 0xFF where the map has none.
   */
  lemma ListingWord(m: ByteMap, i: nat, k: nat)
    requires m.Keys != {}
    requires i < |Listing(m).value| && k < 4
    ensures var e := Listing(m).value[i];
      && e.word < 0x1_0000_0000
      && (e.address + k in m ==> ByteOfWord(e.word, k) == m[e.address + k])
      && (e.address + k !in m ==> ByteOfWord(e.word, k) == Fill)
  {
    var e := Listing(m).value[i];
    var a := e.address;
    AssembleRecover(Fetch(m, a), Fetch(m, a + 1), Fetch(m, a + 2), Fetch(m, a + 3));
  }

  /** Bytes past the highest key, read by the last word, are always the fill value. */
  lemma ListingPastEnd(m: ByteMap, i: nat, k: nat)
    requires m.Keys != {}
    requires i < |Listing(m).value| && k < 4
    requires Listing(m).value[i].address + k > MaxKey(m.Keys)
    ensures ByteOfWord(Listing(m).value[i].word, k) == Fill
  {
    ListingWord(m, i, k);
  }

  /** The slot of an address among the aligned words from `start`. */
  lemma AlignedSlot(start: nat, key: nat, hi: nat)
    requires start % 4 == 0 && start <= key <= hi
    ensures (key - start) / 4 <= (hi - start) / 4
    ensures start + 4 * ((key - start) / 4) == AlignDown(key)
  {
    var q, r := (key - start) / 4, (key - start) % 4;
    var s4 := start / 4;
    assert start == 4 * s4;
    assert key == 4 * (s4 + q) + r;
    assert key % 4 == r;
    var d := hi - key;
    assert (hi - start) == 4 * q + (r + d);
    assert (hi - start) / 4 == q + (r + d) / 4;
  }

  /**
    No byte is lost: every key of the map falls inside the word emitted at its
    own address rounded down, and that word carries its value.
   */
  lemma ListingCovers(m: ByteMap, key: nat)
    requires key in m
    ensures Listing(m).Ok?
    ensures var ws := Listing(m).value; var j := (key - AlignDown(MinKey(m.Keys))) / 4;
      && j < |ws|
      && ws[j].address == AlignDown(key)
      && ByteOfWord(ws[j].word, key - ws[j].address) == m[key]
  {
    var ws := Listing(m).value;
    var start := AlignDown(MinKey(m.Keys));
    var j := (key - start) / 4;
    AlignedSlot(start, key, MaxKey(m.Keys));
    ListingWord(m, j, key - ws[j].address);
  }
}
