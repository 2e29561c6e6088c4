/**
 * Software reset and power-on: interrupts masked and the receiver stopped, CTRL.RST set
 * through the I/O port window, a bounded poll until the device clears RST, then the
 * interrupt state cleared; power-on is the reset followed by the EEPROM checksum check.
 */
module Reset {
  import opened Defs
  import opened Bus
  import opened Nvm

  /** The interrupt-mask-clear write that masks every interrupt cause. */
  function MaskAll(): Event {
    Write(E1000_REG_IMC, 0xFFFF_FFFF)
  }

  /**
   * The fixed start of a reset, given the CTRL value read: mask interrupts, stop the
   * receiver, read CTRL, then the I/O-window write of CTRL with RST set (address write,
   * flushing STATUS read, data write).
   */
  function ResetPrefix(ctrl: bv32, ioPort: bv32): seq<Event> {
    [MaskAll(), Write(E1000_REG_RCTL, 0), Read(E1000_REG_CTRL),
     PortWrite(ioPort, E1000_REG_CTRL), Read(E1000_REG_STATUS), PortWrite(ioPort + 4, ctrl | E1000_CTRL_RST)]
  }

  /** Script position of the first CTRL poll: after the CTRL read and the flushing STATUS read. */
  function ResetPollStart(at: nat): nat {
    at + 2
  }

  /** Number of CTRL polls of a reset that starts reading at script position `at`. */
  function ResetPolls(script: seq<bv32>, at: nat): nat {
    PollCount(script, ResetPollStart(at), E1000_CTRL_RST, false, MAX_RESET_ATTEMPTS)
  }

  /** A soft reset, the device answering from script position `at`, with the I/O window at `ioPort`. */
  function SoftResetRun(script: seq<bv32>, at: nat, ioPort: bv32): Run<NdisStatus> {
    var prefix := ResetPrefix(Response(script, at), ioPort);
    var k := ResetPolls(script, at);
    var polls := PollEvents(E1000_REG_CTRL, RESET_POLL_STALL, k);
    if PollDone(script, ResetPollStart(at), E1000_CTRL_RST, false, MAX_RESET_ATTEMPTS) then
      Run(prefix + polls + [MaskAll(), Read(E1000_REG_ICR)], ResetPollStart(at) + k + 1, Success)
    else
      Run(prefix + polls, ResetPollStart(at) + k, Failure)
  }

  /**
   * A reset consists of the fixed prefix with the CTRL value read first, then between 1 and
   * MAX_RESET_ATTEMPTS (stall 100us, CTRL read) pairs where every read but the last has RST
   * set; it succeeds exactly when some read in the budget has RST clear, and then ends with
   * masking interrupts again and reading ICR. The polls start at script position
   * ResetPollStart(at), that is at + 2.
   */
  lemma SoftResetTranscript(script: seq<bv32>, at: nat, ioPort: bv32)
    ensures var r, k := SoftResetRun(script, at, ioPort), ResetPolls(script, at);
      var prefix, polls := ResetPrefix(Response(script, at), ioPort), PollEvents(E1000_REG_CTRL, RESET_POLL_STALL, k);
      1 <= k <= MAX_RESET_ATTEMPTS &&
      (forall p :: at + 2 <= p < at + 2 + k - 1 ==> Response(script, p) & E1000_CTRL_RST != 0) &&
      (r.value == Success || r.value == Failure) &&
      (r.value == Success <==>
        exists p :: at + 2 <= p < at + 2 + MAX_RESET_ATTEMPTS && Response(script, p) & E1000_CTRL_RST == 0) &&
      (r.value == Success ==>
        Response(script, at + 2 + k - 1) & E1000_CTRL_RST == 0 &&
        r.events == prefix + polls + [MaskAll(), Read(E1000_REG_ICR)] && r.end == at + k + 3) &&
      (r.value == Failure ==>
        k == MAX_RESET_ATTEMPTS && r.events == prefix + polls && r.end == at + k + 2)
  {
    PollCountSpec(script, at + 2, E1000_CTRL_RST, false, MAX_RESET_ATTEMPTS);
    PollDoneIff(script, at + 2, E1000_CTRL_RST, false, MAX_RESET_ATTEMPTS);
  }

  /** A device that keeps RST set makes the reset fail after exactly MAX_RESET_ATTEMPTS polls. */
  lemma SoftResetNeverClears(script: seq<bv32>, at: nat, ioPort: bv32)
    requires forall p :: ResetPollStart(at) <= p < ResetPollStart(at) + MAX_RESET_ATTEMPTS ==> Response(script, p) & E1000_CTRL_RST != 0
    ensures SoftResetRun(script, at, ioPort).value == Failure
    ensures SoftResetRun(script, at, ioPort).end == ResetPollStart(at) + MAX_RESET_ATTEMPTS
    ensures SoftResetRun(script, at, ioPort).events ==
      ResetPrefix(Response(script, at), ioPort) + PollEvents(E1000_REG_CTRL, RESET_POLL_STALL, MAX_RESET_ATTEMPTS)
  {
    PollNeverDone(script, ResetPollStart(at), E1000_CTRL_RST, false, MAX_RESET_ATTEMPTS);
  }

  /** Power-on: a soft reset, and when that succeeds, the EEPROM checksum check. */
  function PowerOnRun(script: seq<bv32>, at: nat, ioPort: bv32): Run<NdisStatus> {
    var r := SoftResetRun(script, at, ioPort);
    if r.value != Success then r
    else
      var c := ChecksumRun(script, r.end);
      Run(r.events + c.events, c.end, if c.value then Success else InvalidData)
  }

  /** Whether an event touches the EEPROM read register. */
  predicate TouchesEerd(e: Event) {
    (e.Write? && e.offset == E1000_REG_EERD) || (e.Read? && e.offset == E1000_REG_EERD)
  }

  /** A soft reset never touches the EEPROM read register, whatever its outcome. */
  lemma SoftResetNoEeprom(script: seq<bv32>, at: nat, ioPort: bv32)
    ensures forall e :: e in SoftResetRun(script, at, ioPort).events ==> !TouchesEerd(e)
  {
    var r, k := SoftResetRun(script, at, ioPort), ResetPolls(script, at);
    PollEventsOnly(E1000_REG_CTRL, RESET_POLL_STALL, k);
    var prefix, polls := ResetPrefix(Response(script, at), ioPort), PollEvents(E1000_REG_CTRL, RESET_POLL_STALL, k);
    forall e | e in r.events ensures !TouchesEerd(e) {
      assert e in prefix || e in polls || e in [MaskAll(), Read(E1000_REG_ICR)];
    }
  }

  /**
   * Power-on returns the reset's failure unchanged, with the reset's events only and no
   * EEPROM access; after a successful reset it is INVALID_DATA exactly when the checksum
   * check fails, and SUCCESS exactly when it passes.
   */
  lemma PowerOnOutcome(script: seq<bv32>, at: nat, ioPort: bv32)
    ensures var p, r := PowerOnRun(script, at, ioPort), SoftResetRun(script, at, ioPort);
      var c := ChecksumRun(script, r.end);
      (r.value == Failure ==>
        p == r && forall e :: e in p.events ==> !TouchesEerd(e)) &&
      (p.value == InvalidData <==> r.value == Success && !c.value) &&
      (p.value == Success <==> r.value == Success && c.value) &&
      (p.value == Failure <==> r.value == Failure) &&
      (r.value == Success ==> p.events == r.events + c.events && p.end == c.end)
  {
    SoftResetTranscript(script, at, ioPort);
    SoftResetNoEeprom(script, at, ioPort);
  }
}
