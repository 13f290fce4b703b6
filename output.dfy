/**
  The text of one output line of soft/srec2text.py: the address as Python's
  `hex()` writes it (`0x`, lower case, no leading zeros), a space, and the word
  as `0x` and eight upper-case digits.
 */
module Output {
  import opened Results
  import opened Hex
  import opened Words

  /** One output line, without its newline. */
  function FormatEntry(e: Emitted): (s: string)
    requires e.word < 0x1_0000_0000
    ensures |s| > 13
  {
    "0x" + MinimalHex(e.address, false) + " 0x" + HexOf(e.word, 8, true)
  }

  /**
    A line reads back as its entry: the digits after the first `0x` are the
    address with no leading zero, and the last eight digits are the word.
   */
  lemma FormatRoundTrip(e: Emitted)
    requires e.word < 0x1_0000_0000
    ensures var s := FormatEntry(e);
      && s[..2] == "0x"
      && s[|s| - 11..|s| - 8] == " 0x"
      && ParseHex(s[2..|s| - 11]) == Some(e.address)
      && (e.address > 0 ==> s[2] != '0')
      && (e.address == 0 ==> s[2..|s| - 11] == "0")
      && LowerDigits(s[2..|s| - 11])
      && ParseHex(s[|s| - 8..]) == Some(e.word)
      && UpperDigits(s[|s| - 8..])
  {
    var a := MinimalHex(e.address, false);
    var w := HexOf(e.word, 8, true);
    var s := FormatEntry(e);
    assert s == "0x" + a + " 0x" + w;
    assert s[..2] == "0x";
    assert s[2..|s| - 11] == a;
    assert s[|s| - 11..|s| - 8] == " 0x";
    assert s[|s| - 8..] == w;
    MinimalHexRoundTrip(e.address, false);
    assert Pow16(8) == 0x1_0000_0000;
    HexOfRoundTrip(e.word, 8, true);
  }
}
