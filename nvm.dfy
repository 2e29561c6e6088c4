/**
 * Indirect EEPROM read through the EERD register, reading a run of consecutive words
 * that stops at the first failure, and the 16-bit wrapping checksum over words 0..3Fh
 * (the checksum-word rule of the 8254x EEPROM map, section 5.6.35 of its manual).
 */
module Nvm {
  import opened Defs
  import opened Bus
  import opened Checksum

  /** The EERD control word that starts a read of EEPROM word `address`. */
  function EerdControl(address: uchar): bv32 {
    E1000_EERD_START | ((address as bv32) << E1000_EERD_ADDR_SHIFT)
  }

  /** The data field of an EERD value, cast to USHORT. */
  function EerdData(v: bv32): bv16 {
    (v >> E1000_EERD_DATA_SHIFT) as bv16
  }

  /** EEPROM words as the numbers the checksum adds up. */
  function AsNumbers(words: seq<bv16>): (n: seq<u16>)
    ensures |n| == |words|
    ensures forall i :: 0 <= i < |words| ==> n[i] as int == words[i] as int
  {
    seq(|words|, i requires 0 <= i < |words| => words[i] as int as u16)
  }

  /** One more word read adds one more number. */
  lemma AsNumbersSnoc(words: seq<bv16>, w: bv16)
    ensures AsNumbers(words + [w]) == AsNumbers(words) + [w as int as u16]
  {
  }

  /** What the driver concludes from the last EERD value it read: its data field once DONE is set. */
  function EerdResult(last: bv32): Option<bv16> {
    if last & E1000_EERD_DONE != 0 then Some(EerdData(last)) else None
  }

  /** An EEPROM word read of `address`, the device answering from script position `at`. */
  function ReadEepromRun(script: seq<bv32>, at: nat, address: uchar): Run<Option<bv16>> {
    var k := PollCount(script, at, E1000_EERD_DONE, true, MAX_EEPROM_READ_ATTEMPTS);
    var last := PollFinal(script, at, E1000_EERD_DONE, true, MAX_EEPROM_READ_ATTEMPTS);
    Run([Write(E1000_REG_EERD, EerdControl(address))] + PollEvents(E1000_REG_EERD, EERD_POLL_STALL, k),
        at + k, EerdResult(last))
  }

  /** The run of a word read whose poll loop stopped after n reads. */
  lemma ReadEepromAfterPolls(script: seq<bv32>, at: nat, address: uchar, n: nat)
    requires 1 <= n <= MAX_EEPROM_READ_ATTEMPTS
    requires forall p :: at <= p < at + n - 1 ==> Response(script, p) & E1000_EERD_DONE == 0
    requires Response(script, at + n - 1) & E1000_EERD_DONE != 0 || n == MAX_EEPROM_READ_ATTEMPTS
    ensures ReadEepromRun(script, at, address) ==
      Run([Write(E1000_REG_EERD, EerdControl(address))] + PollEvents(E1000_REG_EERD, EERD_POLL_STALL, n),
          at + n, EerdResult(Response(script, at + n - 1)))
  {
    PollCountIs(script, at, E1000_EERD_DONE, true, MAX_EEPROM_READ_ATTEMPTS, n);
  }

  /** The address and the start bit can be read back from the control word. */
  lemma EerdControlFields(address: uchar)
    ensures (EerdControl(address) >> E1000_EERD_ADDR_SHIFT) & 0xFF == address as bv32
    ensures EerdControl(address) & E1000_EERD_START != 0
    ensures EerdControl(address) & E1000_EERD_DONE == 0
  {
  }

  /**
   * A word read is one EERD write of the control word followed by between 1 and the
   * budget of (stall 5us, EERD read) pairs, where every read but the last has DONE clear.
   */
  lemma ReadEepromTranscript(script: seq<bv32>, at: nat, address: uchar)
    ensures var r := ReadEepromRun(script, at, address);
      at + 1 <= r.end <= at + MAX_EEPROM_READ_ATTEMPTS &&
      |r.events| == 1 + 2 * (r.end - at) &&
      r.events[0] == Write(E1000_REG_EERD, EerdControl(address)) &&
      (forall j :: 0 <= j < r.end - at ==>
        r.events[1 + 2 * j] == Stall(EERD_POLL_STALL) && r.events[2 + 2 * j] == Read(E1000_REG_EERD)) &&
      (forall p :: at <= p < r.end - 1 ==> Response(script, p) & E1000_EERD_DONE == 0)
  {
    var k := PollCount(script, at, E1000_EERD_DONE, true, MAX_EEPROM_READ_ATTEMPTS);
    PollCountSpec(script, at, E1000_EERD_DONE, true, MAX_EEPROM_READ_ATTEMPTS);
    PollEventsShape(E1000_REG_EERD, EERD_POLL_STALL, k);
  }

  /**
   * A word read yields the data field of the last EERD value read, which is the first
   * with DONE set, and yields nothing exactly when no read in the budget has DONE set.
   */
  lemma ReadEepromOutcome(script: seq<bv32>, at: nat, address: uchar)
    ensures var r := ReadEepromRun(script, at, address);
      (r.value.Some? <==>
        exists p :: at <= p < at + MAX_EEPROM_READ_ATTEMPTS && Hit(Response(script, p), E1000_EERD_DONE, true)) &&
      (r.value.Some? ==> r.value.value == EerdData(Response(script, r.end - 1)))
  {
    PollDoneIff(script, at, E1000_EERD_DONE, true, MAX_EEPROM_READ_ATTEMPTS);
  }

  /** The outcome of reading EEPROM words 0, 1, ... in order, stopping at the first failed read. */
  datatype WordScan = WordScan(events: seq<Event>, end: nat, words: seq<bv16>, failed: bool)

  /** A number of words that UCHAR addresses can reach. */
  type WordCount = k: nat | k <= 0x100

  /** A word read of word n, the device answering from script position pos. */
  type WordReader = (nat, uchar) -> Run<Option<bv16>>

  /** The word reads of the device: word n is read at the UCHAR address n. */
  function EepromReader(script: seq<bv32>): WordReader {
    (pos: nat, n: uchar) => ReadEepromRun(script, pos, n)
  }

  /** Reading words 0..k-1 with `read`, the device answering from script position `at`. */
  function ReadWords(read: WordReader, at: nat, k: WordCount): (s: WordScan)
    ensures |s.words| <= k
    ensures s.failed ==> |s.words| < k
    ensures !s.failed ==> |s.words| == k
  {
    if k == 0 then WordScan([], at, [], false)
    else
      var s := ReadWords(read, at, k - 1);
      if s.failed then s
      else
        var r := read(s.end, k - 1);
        WordScan(s.events + r.events, r.end,
                 if r.value.Some? then s.words + [r.value.value] else s.words, r.value.None?)
  }

  /** One more word: a scan that has not failed goes on with the read of the next word. */
  lemma ReadWordsNext(read: WordReader, at: nat, k: WordCount)
    requires 0 < k
    ensures var s := ReadWords(read, at, k - 1);
      var r := read(s.end, k - 1);
      ReadWords(read, at, k) == if s.failed then s else
        WordScan(s.events + r.events, r.end,
                 if r.value.Some? then s.words + [r.value.value] else s.words, r.value.None?)
  {
  }

  /**
   * One step of a word scan that has not failed, as a loop performs it: after the read of
   * word n, the transcript, the script position and the words are those of the scan of n+1 words.
   */
  lemma ReadWordsStep(read: WordReader, at: nat, n: uchar, t0: seq<Event>, trace: seq<Event>,
                      cursor: nat, done: bool, data: bv16)
    requires !ReadWords(read, at, n).failed
    requires var s := ReadWords(read, at, n);
      var r := read(s.end, n);
      trace == t0 + s.events + r.events && cursor == r.end &&
      done == r.value.Some? && (done ==> data == r.value.value)
    ensures var s, t := ReadWords(read, at, n), ReadWords(read, at, n + 1);
      trace == t0 + t.events && cursor == t.end && t.failed == !done &&
      (done ==> t.words == s.words + [data])
  {
    var s := ReadWords(read, at, n);
    AppendAssoc(t0, s.events, read(s.end, n).events);
    ReadWordsNext(read, at, n + 1);
  }

  /** Reading fewer words is a prefix of reading more: words are read in increasing order. */
  lemma {:induction false} ReadWordsPrefix(read: WordReader, at: nat, j: WordCount, k: WordCount)
    requires j <= k
    ensures var a, b := ReadWords(read, at, j), ReadWords(read, at, k);
      |a.events| <= |b.events| && b.events[..|a.events|] == a.events &&
      |a.words| <= |b.words| && b.words[..|a.words|] == a.words
  {
    if j < k {
      ReadWordsPrefix(read, at, j, k - 1);
      var a, b0, b := ReadWords(read, at, j), ReadWords(read, at, k - 1), ReadWords(read, at, k);
      if !b0.failed {
        assert b.events[..|b0.events|] == b0.events;
        assert b.words[..|b0.words|] == b0.words;
        assert b.events[..|a.events|] == b0.events[..|b0.events|][..|a.events|];
        assert b.words[..|a.words|] == b0.words[..|b0.words|][..|a.words|];
      }
    }
  }

  /** Once a word read has failed, no further word is read. */
  lemma {:induction false} ReadWordsStop(read: WordReader, at: nat, j: WordCount, k: WordCount)
    requires j <= k
    requires ReadWords(read, at, j).failed
    ensures ReadWords(read, at, k) == ReadWords(read, at, j)
  {
    if j < k {
      ReadWordsStop(read, at, j, k - 1);
    }
  }

  /** The EERD write that starts the read of word n. */
  function EerdStart(n: uchar): Event {
    Write(E1000_REG_EERD, EerdControl(n))
  }

  /** The writes that start the reads of words 0..m-1, in this order. */
  function Starts(start: uchar -> Event, m: WordCount): seq<Event> {
    if m == 0 then [] else Starts(start, m - 1) + [start(m - 1)]
  }

  /** The i-th of these writes starts the read of word i. */
  lemma {:induction false} StartsIndex(start: uchar -> Event, m: WordCount, i: nat)
    requires i < m
    ensures |Starts(start, m)| == m
    ensures Starts(start, m)[i] == start(i)
  {
    if i < m - 1 {
      StartsIndex(start, m - 1, i);
    } else if m > 1 {
      StartsIndex(start, m - 1, 0);
    }
  }

  /** A word read writes EERD once, with the control word of its address, and nothing else. */
  lemma ReadEepromWrites(script: seq<bv32>, at: nat, address: uchar)
    ensures Writes(ReadEepromRun(script, at, address).events) == [Write(E1000_REG_EERD, EerdControl(address))]
  {
    var r := ReadEepromRun(script, at, address);
    var w := Write(E1000_REG_EERD, EerdControl(address));
    var k := PollCount(script, at, E1000_EERD_DONE, true, MAX_EEPROM_READ_ATTEMPTS);
    var polls := PollEvents(E1000_REG_EERD, EERD_POLL_STALL, k);
    assert r.events == [w] + polls;
    WritesAppend([w], polls);
    WritesPollEvents(E1000_REG_EERD, EERD_POLL_STALL, k);
    assert [w][..0] == [];
    assert Writes([w]) == [w];
  }

  /** The writes of a scan that has not failed, followed by the read of the next word. */
  lemma WritesNextWord(read: WordReader, start: uchar -> Event, at: nat, k: WordCount)
    requires 0 < k
    requires Writes(read(ReadWords(read, at, k - 1).end, k - 1).events) == [start(k - 1)]
    requires !ReadWords(read, at, k - 1).failed
    requires Writes(ReadWords(read, at, k - 1).events) == Starts(start, k - 1)
    ensures var t := ReadWords(read, at, k);
      Writes(t.events) == Starts(start, k) && |t.words| + (if t.failed then 1 else 0) == k
  {
    var s := ReadWords(read, at, k - 1);
    var r := read(s.end, k - 1);
    ReadWordsNext(read, at, k);
    WritesAppend(s.events, r.events);
  }

  /**
   * When every read of word n writes exactly start(n), the only writes of a word scan
   * are start(0), start(1), ... up to and including the word whose read failed.
   */
  lemma {:induction false} ReadWordsWrites(read: WordReader, start: uchar -> Event, at: nat, k: WordCount)
    requires forall pos: nat, n: uchar :: Writes(read(pos, n).events) == [start(n)]
    ensures var s := ReadWords(read, at, k);
      Writes(s.events) == Starts(start, |s.words| + if s.failed then 1 else 0)
  {
    if k > 0 {
      var s := ReadWords(read, at, k - 1);
      ReadWordsWrites(read, start, at, k - 1);
      if s.failed {
        assert ReadWords(read, at, k) == s;
      } else {
        assert Writes(read(s.end, k - 1).events) == [start(k - 1)];
        WritesNextWord(read, start, at, k);
      }
    } else {
      assert Writes([]) == [] == Starts(start, 0);
    }
  }

  /** The writes of a scan of EEPROM words 0..k-1 are the EERD starts of the words it read or failed on. */
  lemma EepromScanWrites(script: seq<bv32>, at: nat, k: WordCount)
    ensures var s := ReadWords(EepromReader(script), at, k);
      Writes(s.events) == Starts(EerdStart, |s.words| + if s.failed then 1 else 0)
  {
    forall pos: nat, n: uchar
      ensures Writes(EepromReader(script)(pos, n).events) == [EerdStart(n)]
    {
      ReadEepromWrites(script, pos, n);
    }
    ReadWordsWrites(EepromReader(script), EerdStart, at, k);
  }

  /** Checksum validation: read words 0..3Fh, then compare their wrapping sum with the magic value. */
  function ChecksumRun(script: seq<bv32>, at: nat): Run<bool> {
    var s := ReadWords(EepromReader(script), at, E1000_NVM_REG_CHECKSUM + 1);
    Run(s.events, s.end, !s.failed && Sum16(AsNumbers(s.words)) == NVM_MAGIC_SUM)
  }

  /**
   * Checksum validation succeeds exactly when all 40h word reads complete and the sum of
   * the words read is the magic value; the words are read in order, one EERD write each,
   * and after a failed read no further word is read.
   */
  lemma ChecksumRunSpec(script: seq<bv32>, at: nat)
    ensures var r, s := ChecksumRun(script, at), ReadWords(EepromReader(script), at, E1000_NVM_REG_CHECKSUM + 1);
      (r.value <==> !s.failed && |s.words| == E1000_NVM_REG_CHECKSUM + 1 && Sum16(AsNumbers(s.words)) == NVM_MAGIC_SUM) &&
      Writes(r.events) == Starts(EerdStart, |s.words| + if s.failed then 1 else 0)
  {
    EepromScanWrites(script, at, E1000_NVM_REG_CHECKSUM + 1);
  }
}
