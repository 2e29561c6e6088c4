/**
 * Indirect PHY register read through the MDIC register: the control word, the bounded
 * poll for the ready bit, and the three failure checks.
 */
module Mdio {
  import opened Defs
  import opened Bus

  /** The MDIC control word that asks PHY 1 (the gigabit PHY) for register `address`. */
  function MdicControl(address: bv32): bv32 {
    (address << E1000_MDIC_REGADD_SHIFT) | (E1000_MDIC_PHYADD_GIGABIT << E1000_MDIC_PHYADD_SHIFT)
      | E1000_MDIC_OP_READ
  }

  /** The register-address field the device echoes in an MDIC value. */
  function EchoedAddress(mdic: bv32): bv32 {
    (mdic >> E1000_MDIC_REGADD_SHIFT) & MAX_PHY_REG_ADDRESS
  }

  /**
   * The outcome of a PHY read as the caller sees it: the boolean the driver returns and
   * the value stored through the result pointer (None: the pointer is left untouched).
   */
  datatype PhyReply = PhyReply(ok: bool, data: Option<bv16>)

  /** The value of the caller's result variable after the call. */
  function Stored(reply: PhyReply, prior: bv16): bv16 {
    if reply.data.Some? then reply.data.value else prior
  }

  /** What the driver concludes from the last MDIC value it read. */
  function MdicReply(mdic: bv32, address: bv32): PhyReply {
    if mdic & E1000_MDIC_R == 0 then PhyReply(false, None)          // read incomplete
    else if mdic & E1000_MDIC_E != 0 then PhyReply(false, None)     // read error
    else if EchoedAddress(mdic) != address then PhyReply(false, None)  // wrong address
    else PhyReply(true, Some(Low16(mdic)))
  }

  /** Number of MDIC polls of a read whose polls start at script position `at`. */
  function MdicPolls(script: seq<bv32>, at: nat): nat {
    PollCount(script, at, E1000_MDIC_R, true, MAX_PHY_READ_ATTEMPTS)
  }

  /** The last MDIC value the poll loop read. */
  function MdicFinal(script: seq<bv32>, at: nat): bv32 {
    PollFinal(script, at, E1000_MDIC_R, true, MAX_PHY_READ_ATTEMPTS)
  }

  /** A PHY register read of `address`, with the device answering from script position `at`. */
  function ReadMdicRun(script: seq<bv32>, at: nat, address: bv32): Run<PhyReply> {
    if address > MAX_PHY_REG_ADDRESS then
      // the source reports success here, leaving the result untouched
      Run([], at, PhyReply(true, None))
    else
      var k := MdicPolls(script, at);
      Run([Write(E1000_REG_MDIC, MdicControl(address))] + PollEvents(E1000_REG_MDIC, MDIC_POLL_STALL, k),
          at + k, MdicReply(MdicFinal(script, at), address))
  }

  /**
   * The run of a valid-address read whose poll loop stopped after n reads, the last of
   * which returned `mdic`.
   */
  lemma ReadMdicAfterPolls(script: seq<bv32>, at: nat, address: bv32, n: nat)
    requires address <= MAX_PHY_REG_ADDRESS
    requires 1 <= n <= MAX_PHY_READ_ATTEMPTS
    requires forall p :: at <= p < at + n - 1 ==> Response(script, p) & E1000_MDIC_R == 0
    requires Response(script, at + n - 1) & E1000_MDIC_R != 0 || n == MAX_PHY_READ_ATTEMPTS
    ensures ReadMdicRun(script, at, address) ==
      Run([Write(E1000_REG_MDIC, MdicControl(address))] + PollEvents(E1000_REG_MDIC, MDIC_POLL_STALL, n),
          at + n, MdicReply(Response(script, at + n - 1), address))
  {
    PollCountIs(script, at, E1000_MDIC_R, true, MAX_PHY_READ_ATTEMPTS, n);
  }

  /** The control word carries the register address, PHY 1 and the read opcode, and no status bits. */
  lemma MdicControlFields(address: bv32)
    requires address <= MAX_PHY_REG_ADDRESS
    ensures EchoedAddress(MdicControl(address)) == address
    ensures (MdicControl(address) >> E1000_MDIC_PHYADD_SHIFT) & E1000_MDIC_PHYADD_MASK == E1000_MDIC_PHYADD_GIGABIT
    ensures MdicControl(address) & E1000_MDIC_OP_MASK == E1000_MDIC_OP_READ
    ensures MdicControl(address) & (E1000_MDIC_R | E1000_MDIC_E | E1000_MDIC_DATA_MASK) == 0
  {
  }

  /** An out-of-range address touches no register, leaves the result alone and reports TRUE. */
  lemma ReadMdicInvalidAddress(script: seq<bv32>, at: nat, address: bv32, prior: bv16)
    requires address > MAX_PHY_REG_ADDRESS
    ensures ReadMdicRun(script, at, address).events == []
    ensures ReadMdicRun(script, at, address).end == at
    ensures ReadMdicRun(script, at, address).value.ok
    ensures Stored(ReadMdicRun(script, at, address).value, prior) == prior
  {
  }

  /**
   * A valid address: one MDIC write of the control word, then between 1 and the budget
   * of (stall 50us, MDIC read) pairs, where every read but the last has R clear.
   */
  lemma ReadMdicTranscript(script: seq<bv32>, at: nat, address: bv32)
    requires address <= MAX_PHY_REG_ADDRESS
    ensures var r := ReadMdicRun(script, at, address);
      at + 1 <= r.end <= at + MAX_PHY_READ_ATTEMPTS &&
      |r.events| == 1 + 2 * (r.end - at) &&
      r.events[0] == Write(E1000_REG_MDIC, MdicControl(address)) &&
      (forall j :: 0 <= j < r.end - at ==>
        r.events[1 + 2 * j] == Stall(MDIC_POLL_STALL) && r.events[2 + 2 * j] == Read(E1000_REG_MDIC)) &&
      (forall p :: at <= p < r.end - 1 ==> Response(script, p) & E1000_MDIC_R == 0)
  {
    var k := MdicPolls(script, at);
    PollCountSpec(script, at, E1000_MDIC_R, true, MAX_PHY_READ_ATTEMPTS);
    PollEventsShape(E1000_REG_MDIC, MDIC_POLL_STALL, k);
  }

  /**
   * A valid address succeeds exactly when the final MDIC value has R set, E clear and
   * echoes the requested address; the stored value is then its low 16 bits, and on any
   * failure the result is left untouched.
   */
  lemma ReadMdicOutcome(script: seq<bv32>, at: nat, address: bv32, prior: bv16)
    requires address <= MAX_PHY_REG_ADDRESS
    ensures var r := ReadMdicRun(script, at, address);
      var mdic := Response(script, r.end - 1);
      (r.value.ok <==> mdic & E1000_MDIC_R != 0 && mdic & E1000_MDIC_E == 0
                        && EchoedAddress(mdic) == address) &&
      Stored(r.value, prior) == (if r.value.ok then Low16(mdic) else prior)
  {
  }

  /** A device that never sets R makes the read fail after exactly the full budget of polls. */
  lemma ReadMdicNeverReady(script: seq<bv32>, at: nat, address: bv32)
    requires address <= MAX_PHY_REG_ADDRESS
    requires forall p :: at <= p < at + MAX_PHY_READ_ATTEMPTS ==> Response(script, p) & E1000_MDIC_R == 0
    ensures ReadMdicRun(script, at, address).end == at + MAX_PHY_READ_ATTEMPTS
    ensures !ReadMdicRun(script, at, address).value.ok
  {
    PollNeverDone(script, at, E1000_MDIC_R, true, MAX_PHY_READ_ATTEMPTS);
  }

  /** A completed read that echoes another register address fails. */
  lemma ReadMdicWrongAddress(script: seq<bv32>, at: nat, address: bv32, i: nat)
    requires address <= MAX_PHY_REG_ADDRESS
    requires i < MAX_PHY_READ_ATTEMPTS
    requires forall p :: at <= p < at + i ==> Response(script, p) & E1000_MDIC_R == 0
    requires Response(script, at + i) & E1000_MDIC_R != 0
    requires EchoedAddress(Response(script, at + i)) != address
    ensures ReadMdicRun(script, at, address).end == at + i + 1
    ensures !ReadMdicRun(script, at, address).value.ok
  {
    var k := MdicPolls(script, at);
    PollCountSpec(script, at, E1000_MDIC_R, true, MAX_PHY_READ_ATTEMPTS);
    assert k - 1 <= i;
    assert k == i + 1;
    assert MdicFinal(script, at) == Response(script, at + i);
  }
}
