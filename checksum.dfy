/**
 * The EEPROM checksum arithmetic: words are USHORT values, summed with 16-bit
 * wrap-around, and the checksum word 3Fh is chosen so that the sum of words 0..3Fh is
 * the magic value.
 */
module Checksum {
  import opened Defs

  /** USHORT addition, wrapping at 16 bits. */
  function Add16(a: u16, b: u16): u16 {
    ((a as int + b as int) % 0x10000) as u16
  }

  /** USHORT subtraction, wrapping at 16 bits. */
  function Sub16(a: u16, b: u16): u16 {
    ((a as int - b as int) % 0x10000) as u16
  }

  lemma Add16Assoc(a: u16, b: u16, c: u16)
    ensures Add16(a, Add16(b, c)) == Add16(Add16(a, b), c)
  {
  }

  lemma Add16Swap(a: u16, b: u16, c: u16)
    ensures Add16(Add16(a, b), c) == Add16(Add16(a, c), b)
  {
  }

  /** The wrapping sum of the words, as the USHORT accumulator computes it. */
  function Sum16(words: seq<u16>): u16 {
    if words == [] then 0 else Add16(Sum16(words[..|words| - 1]), words[|words| - 1])
  }

  /** Adding one more word to the accumulator. */
  lemma Sum16Snoc(words: seq<u16>, w: u16)
    ensures Sum16(words + [w]) == Add16(Sum16(words), w)
  {
    assert (words + [w])[..|words|] == words;
  }

  /** Raising one word by one (wrapping) raises the wrapping sum by one. */
  lemma {:induction false} Sum16Bump(words: seq<u16>, i: nat)
    requires i < |words|
    ensures Sum16(words[i := Add16(words[i], 1)]) == Add16(Sum16(words), 1)
  {
    var n := |words|;
    var bumped := words[i := Add16(words[i], 1)];
    var front, last := words[..n - 1], words[n - 1];
    if i == n - 1 {
      assert bumped[..n - 1] == front;
      Add16Assoc(Sum16(front), last, 1);
    } else {
      assert bumped[..n - 1] == front[i := Add16(front[i], 1)];
      Sum16Bump(front, i);
      Add16Swap(Sum16(front), 1, last);
    }
  }

  /**
   * Appending the checksum word, the magic value minus the sum of the words before it,
   * makes the sum of the image the magic value.
   */
  lemma ChecksumWordCompletes(words: seq<u16>)
    ensures Sum16(words + [Sub16(NVM_MAGIC_SUM, Sum16(words))]) == NVM_MAGIC_SUM
  {
    Sum16Snoc(words, Sub16(NVM_MAGIC_SUM, Sum16(words)));
  }

  /**
   * An image with a valid checksum stops being valid when any one word is off by one,
   * raised or lowered (with wrap-around).
   */
  lemma ChecksumOffByOne(words: seq<u16>, i: nat)
    requires i < |words|
    requires Sum16(words) == NVM_MAGIC_SUM
    ensures Sum16(words[i := Add16(words[i], 1)]) != NVM_MAGIC_SUM
    ensures Sum16(words[i := Sub16(words[i], 1)]) != NVM_MAGIC_SUM
  {
    Sum16Bump(words, i);
    var low := words[i := Sub16(words[i], 1)];
    assert low[i := Add16(low[i], 1)] == words;
    Sum16Bump(low, i);
  }
}
