/**
 * The permanent hardware address: EEPROM words 0, 1 and 2, each holding two address
 * bytes, low byte first.
 */
module Mac {
  import opened Defs
  import opened Bus
  import opened Nvm

  /** Number of EEPROM words that hold the address. */
  const MAC_WORDS: nat := IEEE_802_ADDR_LENGTH / 2

  function LowByte(w: bv16): bv8 {
    (w & 0xFF) as bv8
  }

  function HighByte(w: bv16): bv8 {
    ((w >> 8) & 0xFF) as bv8
  }

  /** The two bytes of a word put back together give the word. */
  lemma WordBytes(w: bv16)
    ensures ((HighByte(w) as bv16) << 8) | (LowByte(w) as bv16) == w
  {
  }

  /** Address byte i as taken from the EEPROM words: word i/2, low byte at even i. */
  function MacByte(words: seq<bv16>, i: nat): bv8
    requires i < 2 * |words|
  {
    if i % 2 == 0 then LowByte(words[i / 2]) else HighByte(words[i / 2])
  }

  /**
   * The address array after the bytes of `words` were stored over `prev`: bytes 2n and
   * 2n+1 come from word n, the bytes of words not read keep their values.
   */
  function StoredAddress(words: seq<bv16>, prev: seq<bv8>): seq<bv8>
    requires |words| <= MAC_WORDS && |prev| == IEEE_802_ADDR_LENGTH
  {
    seq(IEEE_802_ADDR_LENGTH, i requires 0 <= i < IEEE_802_ADDR_LENGTH =>
      if i < 2 * |words| then MacByte(words, i) else prev[i])
  }

  /** Storing one more word overwrites exactly its two bytes, low byte first. */
  lemma StoredAddressNext(words: seq<bv16>, w: bv16, prev: seq<bv8>)
    requires |words| < MAC_WORDS && |prev| == IEEE_802_ADDR_LENGTH
    ensures var n := |words|;
      StoredAddress(words + [w], prev) == StoredAddress(words, prev)[2 * n := LowByte(w)][2 * n + 1 := HighByte(w)]
  {
    var n, a, b := |words|, StoredAddress(words + [w], prev), StoredAddress(words, prev);
    forall i | 0 <= i < IEEE_802_ADDR_LENGTH
      ensures a[i] == b[2 * n := LowByte(w)][2 * n + 1 := HighByte(w)][i]
    {
      if i < 2 * n {
        assert (words + [w])[i / 2] == words[i / 2];
      }
    }
  }

  /** Storing no word leaves the array as it was. */
  lemma StoredAddressNone(prev: seq<bv8>)
    requires |prev| == IEEE_802_ADDR_LENGTH
    ensures StoredAddress([], prev) == prev
  {
  }

  /**
   * The address read: on success every word n is bytes 2n and 2n+1, low byte first, so
   * the words can be put back together from the address bytes.
   */
  lemma MacBytesRoundTrip(words: seq<bv16>, prev: seq<bv8>)
    requires |words| == MAC_WORDS && |prev| == IEEE_802_ADDR_LENGTH
    ensures var mac := StoredAddress(words, prev);
      forall n :: 0 <= n < MAC_WORDS ==> ((mac[2 * n + 1] as bv16) << 8) | (mac[2 * n] as bv16) == words[n]
  {
    var mac := StoredAddress(words, prev);
    forall n | 0 <= n < MAC_WORDS
      ensures ((mac[2 * n + 1] as bv16) << 8) | (mac[2 * n] as bv16) == words[n]
    {
      assert mac[2 * n] == LowByte(words[n]);
      assert mac[2 * n + 1] == HighByte(words[n]);
      WordBytes(words[n]);
    }
  }
}
