/**
 * Link-status derivation from the PHY: PHY_STATUS is read twice because the link bit can
 * be sticky (the first read only decides whether to wait 100us), then, with the link up,
 * PHY_SPECIFIC_STATUS gives the resolved speed through a four-entry table.
 */
module Link {
  import opened Defs
  import opened Bus
  import opened Mdio

  /** Link speeds in Mbit/s, indexed by the PHY's two-bit speed field. */
  const SpeedValues: seq<nat> := [10, 100, 1000, 1000]

  /** The two-bit speed field of PHY_SPECIFIC_STATUS. */
  function SpeedIndex(phyStatus: bv16): (i: nat)
    ensures i < |SpeedValues|
  {
    ((phyStatus & E1000_PSS_SPEEDMASK) >> E1000_PSS_SPEEDSHIFT) as nat
  }

  /** The adapter's media state and link speed. */
  datatype LinkState = LinkState(media: MediaState, speedMbps: nat)

  /**
   * The first PHY_STATUS read and the 100us stall that follows it when it fails; the
   * value is the PHY status variable afterwards, `prior` being its value before.
   */
  function StickyReadRun(script: seq<bv32>, at: nat, prior: bv16): Run<bv16> {
    var first := ReadMdicRun(script, at, E1000_PHY_STATUS);
    Run(first.events + if first.value.ok then [] else [Stall(LINK_RETRY_STALL)],
        first.end, Stored(first.value, prior))
  }

  /** The link speed read from PHY_SPECIFIC_STATUS once the link is known to be up. */
  function SpeedRun(script: seq<bv32>, at: nat, prior: bv16): Run<nat> {
    var third := ReadMdicRun(script, at, E1000_PHY_SPECIFIC_STATUS);
    var status := Stored(third.value, prior);
    Run(third.events, third.end,
        if third.value.ok && status & E1000_PSS_SPEED_AND_DUPLEX != 0 then SpeedValues[SpeedIndex(status)] else 0)
  }

  /** The second PHY_STATUS read and, with the link up, the speed read. */
  function LinkRestRun(script: seq<bv32>, at: nat, prior: bv16): Run<LinkState> {
    var second := ReadMdicRun(script, at, E1000_PHY_STATUS);
    var status := Stored(second.value, prior);
    if !second.value.ok || status & E1000_PS_LINK_STATUS == 0 then
      Run(second.events, second.end, LinkState(Disconnected, 0))
    else
      var speed := SpeedRun(script, second.end, status);
      Run(second.events + speed.events, speed.end, LinkState(Connected, speed.value))
  }

  /**
   * A link-status update, the device answering from script position `at`; `prior` is the
   * value of the PHY status variable before the first read.
   */
  function UpdateLinkRun(script: seq<bv32>, at: nat, prior: bv16): Run<LinkState> {
    var lead := StickyReadRun(script, at, prior);
    var rest := LinkRestRun(script, lead.end, lead.value);
    Run(lead.events + rest.events, rest.end, rest.value)
  }

  /**
   * The link state implied by the second PHY_STATUS read and the PHY_SPECIFIC_STATUS
   * read, with the reads starting at script position `at`: no prior value takes part.
   */
  function LinkFromStatusReads(script: seq<bv32>, at: nat): Run<LinkState> {
    var status := ReadMdicRun(script, at, E1000_PHY_STATUS);
    if !status.value.ok || status.value.data.None? || status.value.data.value & E1000_PS_LINK_STATUS == 0 then
      Run(status.events, status.end, LinkState(Disconnected, 0))
    else
      var specific := ReadMdicRun(script, status.end, E1000_PHY_SPECIFIC_STATUS);
      var speed := if specific.value.ok && specific.value.data.Some?
                      && specific.value.data.value & E1000_PSS_SPEED_AND_DUPLEX != 0
                   then SpeedValues[SpeedIndex(specific.value.data.value)] else 0;
      Run(status.events + specific.events, specific.end, LinkState(Connected, speed))
  }

  /**
   * Whatever the PHY status variable held, the second PHY_STATUS read and the speed read
   * behave as the reference definition that uses only the values those reads return.
   */
  lemma LinkRestIgnoresPrior(script: seq<bv32>, at: nat, prior: bv16)
    ensures LinkRestRun(script, at, prior) == LinkFromStatusReads(script, at)
  {
    var second := ReadMdicRun(script, at, E1000_PHY_STATUS);
    if second.value.ok {
      var speed := SpeedRun(script, second.end, Stored(second.value, prior));
      var specific := ReadMdicRun(script, second.end, E1000_PHY_SPECIFIC_STATUS);
      assert speed.value == (if specific.value.ok && specific.value.data.Some?
                      && specific.value.data.value & E1000_PSS_SPEED_AND_DUPLEX != 0
                   then SpeedValues[SpeedIndex(specific.value.data.value)] else 0);
    }
  }

  /**
   * The first PHY_STATUS read changes nothing but whether a 100us stall follows it: the
   * update is that read (and stall) followed by the reference reads, whatever the first
   * read answered and whatever the status variable held.
   */
  lemma FirstReadOnlyStalls(script: seq<bv32>, at: nat, prior: bv16)
    ensures var lead := StickyReadRun(script, at, prior);
      var rest := LinkFromStatusReads(script, lead.end);
      UpdateLinkRun(script, at, prior) == Run(lead.events + rest.events, rest.end, rest.value)
  {
    var lead := StickyReadRun(script, at, prior);
    LinkRestIgnoresPrior(script, lead.end, lead.value);
  }

  /** The 100us stall follows the first PHY_STATUS read exactly when that read fails. */
  lemma StickyReadStalls(script: seq<bv32>, at: nat, prior: bv16)
    ensures var lead, first := StickyReadRun(script, at, prior), ReadMdicRun(script, at, E1000_PHY_STATUS);
      lead.end == first.end &&
      lead.events == first.events + (if first.value.ok then [] else [Stall(LINK_RETRY_STALL)])
  {
  }

  /** The speed is one of 0, 10, 100 and 1000 Mbit/s, and 0 whenever the link is down. */
  lemma LinkSpeedRange(script: seq<bv32>, at: nat, prior: bv16)
    ensures var s := UpdateLinkRun(script, at, prior).value;
      s.speedMbps in {0, 10, 100, 1000} &&
      (s.media == Disconnected ==> s.speedMbps == 0)
  {
  }

  /**
   * Of the reference reads starting at `at`: the link is up exactly when the PHY_STATUS
   * read succeeds with the link bit set; the speed is non-zero exactly when, in addition,
   * the PHY_SPECIFIC_STATUS read succeeds with speed-and-duplex resolved, and it is then
   * the table entry of its speed field.
   */
  lemma StatusReadsIff(script: seq<bv32>, at: nat)
    ensures var u, second := LinkFromStatusReads(script, at), ReadMdicRun(script, at, E1000_PHY_STATUS);
      var third := ReadMdicRun(script, second.end, E1000_PHY_SPECIFIC_STATUS);
      var status2, status3 := Low16(MdicFinal(script, at)), Low16(MdicFinal(script, second.end));
      (u.value.media == Connected <==> second.value.ok && status2 & E1000_PS_LINK_STATUS != 0) &&
      (u.value.speedMbps != 0 <==>
        u.value.media == Connected && third.value.ok && status3 & E1000_PSS_SPEED_AND_DUPLEX != 0) &&
      (u.value.speedMbps != 0 ==> u.value.speedMbps == SpeedValues[SpeedIndex(status3)])
  {
  }

  /**
   * The link is up exactly when the second PHY_STATUS read succeeds with the link bit set;
   * the speed is non-zero exactly when, in addition, the PHY_SPECIFIC_STATUS read succeeds
   * with speed-and-duplex resolved, and it is then the table entry of its speed field.
   */
  lemma LinkStateIff(script: seq<bv32>, at: nat, prior: bv16)
    ensures var u, first := UpdateLinkRun(script, at, prior), ReadMdicRun(script, at, E1000_PHY_STATUS);
      var second := ReadMdicRun(script, first.end, E1000_PHY_STATUS);
      var third := ReadMdicRun(script, second.end, E1000_PHY_SPECIFIC_STATUS);
      var status2, status3 := Low16(MdicFinal(script, first.end)), Low16(MdicFinal(script, second.end));
      (u.value.media == Connected <==> second.value.ok && status2 & E1000_PS_LINK_STATUS != 0) &&
      (u.value.speedMbps != 0 <==>
        u.value.media == Connected && third.value.ok && status3 & E1000_PSS_SPEED_AND_DUPLEX != 0) &&
      (u.value.speedMbps != 0 ==> u.value.speedMbps == SpeedValues[SpeedIndex(status3)])
  {
    FirstReadOnlyStalls(script, at, prior);
    StickyReadStalls(script, at, prior);
    StatusReadsIff(script, ReadMdicRun(script, at, E1000_PHY_STATUS).end);
  }

  /** A PHY that never completes a read leaves the link down at speed 0. */
  lemma LinkDownWhenPhySilent(script: seq<bv32>, at: nat, prior: bv16)
    requires forall p :: at <= p < at + 2 * MAX_PHY_READ_ATTEMPTS ==> Response(script, p) & E1000_MDIC_R == 0
    ensures UpdateLinkRun(script, at, prior).value == LinkState(Disconnected, 0)
  {
    var first := ReadMdicRun(script, at, E1000_PHY_STATUS);
    ReadMdicNeverReady(script, at, E1000_PHY_STATUS);
    ReadMdicNeverReady(script, first.end, E1000_PHY_STATUS);
  }
}
