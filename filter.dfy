/**
 * Receive configuration: the RCTL read-modify-write that maps the NDIS packet filter onto
 * the receive-control filter bits, and the receive-address table (RAL/RAH pairs) that
 * holds the multicast list.
 */
module Filter {
  import opened Defs
  import opened Bus

  /** `bits` when `on` holds, no bits otherwise. */
  function Select(on: bool, bits: bv32): bv32 {
    if on then bits else 0
  }

  /**
   * The RCTL value written for the NDIS `filter`, given the value `rctl` read: the filter
   * bits cleared, then each NDIS packet type present ORs in its RCTL bits, in the order
   * the driver tests them.
   */
  function RctlFilter(rctl: bv32, filter: bv32): bv32 {
    var base := rctl & !E1000_RCTL_FILTER_BITS;
    var m1 := base | Select(filter & NDIS_PACKET_TYPE_ALL_MULTICAST != 0, E1000_RCTL_MPE);
    var m2 := m1 | Select(filter & NDIS_PACKET_TYPE_PROMISCUOUS != 0, E1000_RCTL_UPE);
    var m3 := m2 | Select(filter & NDIS_PACKET_TYPE_PROMISCUOUS != 0, E1000_RCTL_MPE);
    var m4 := m3 | Select(filter & NDIS_PACKET_TYPE_MAC_FRAME != 0, E1000_RCTL_PMCF);
    m4 | Select(filter & NDIS_PACKET_TYPE_BROADCAST != 0, E1000_RCTL_BAM)
  }

  /**
   * Bit by bit: RCTL bits outside the filter bits keep the value read; multicast
   * promiscuous is on exactly for all-multicast or promiscuous, unicast promiscuous
   * exactly for promiscuous, MAC control frames exactly for MAC_FRAME, broadcast accept
   * exactly for broadcast, and store-bad-packets is always cleared.
   */
  lemma RctlFilterBits(rctl: bv32, filter: bv32)
    ensures var w := RctlFilter(rctl, filter);
      w & !E1000_RCTL_FILTER_BITS == rctl & !E1000_RCTL_FILTER_BITS &&
      (w & E1000_RCTL_MPE != 0 <==>
        filter & NDIS_PACKET_TYPE_ALL_MULTICAST != 0 || filter & NDIS_PACKET_TYPE_PROMISCUOUS != 0) &&
      (w & E1000_RCTL_UPE != 0 <==> filter & NDIS_PACKET_TYPE_PROMISCUOUS != 0) &&
      (w & E1000_RCTL_PMCF != 0 <==> filter & NDIS_PACKET_TYPE_MAC_FRAME != 0) &&
      (w & E1000_RCTL_BAM != 0 <==> filter & NDIS_PACKET_TYPE_BROADCAST != 0) &&
      w & E1000_RCTL_SBP == 0
  {
  }

  /** Applying the same filter to the value it produced writes that value again. */
  lemma RctlFilterIdempotent(rctl: bv32, filter: bv32)
    ensures RctlFilter(RctlFilter(rctl, filter), filter) == RctlFilter(rctl, filter)
  {
  }

  /** Applying the packet filter: one RCTL read, then one RCTL write of the new value. */
  function ApplyPacketFilterRun(script: seq<bv32>, at: nat, filter: bv32): Run<NdisStatus> {
    var rctl := Response(script, at);
    Run([Read(E1000_REG_RCTL), Write(E1000_REG_RCTL, RctlFilter(rctl, filter))], at + 1, Success)
  }

  /**
   * When the register answers the second read with what the first application wrote,
   * applying the same filter twice writes one value twice.
   */
  lemma ApplyPacketFilterTwice(script: seq<bv32>, at: nat, filter: bv32)
    requires Response(script, at + 1) == RctlFilter(Response(script, at), filter)
    ensures var first := ApplyPacketFilterRun(script, at, filter);
      var second := ApplyPacketFilterRun(script, first.end, filter);
      second.events == first.events
  {
    RctlFilterIdempotent(Response(script, at), filter);
  }

  /** A hardware address: six bytes, first byte first. */
  type MacAddress = s: seq<bv8> | |s| == IEEE_802_ADDR_LENGTH witness [0, 0, 0, 0, 0, 0]

  /** The receive-address-low value of an address: its bytes 0..3 as a little-endian ULONG. */
  function RalValue(mac: MacAddress): bv32 {
    (mac[0] as bv32) | ((mac[1] as bv32) << 8) | ((mac[2] as bv32) << 16) | ((mac[3] as bv32) << 24)
  }

  /** The receive-address-high value of an address: its bytes 4..5 as a little-endian USHORT. */
  function RahValue(mac: MacAddress): bv32 {
    (mac[4] as bv32) | ((mac[5] as bv32) << 8)
  }

  /** The bytes of an address can be read back from its RAL and RAH values, and RAH needs only 16 bits. */
  lemma ReceiveAddressBytes(mac: MacAddress)
    ensures (RalValue(mac) & 0xFF) as bv8 == mac[0]
    ensures ((RalValue(mac) >> 8) & 0xFF) as bv8 == mac[1]
    ensures ((RalValue(mac) >> 16) & 0xFF) as bv8 == mac[2]
    ensures ((RalValue(mac) >> 24) & 0xFF) as bv8 == mac[3]
    ensures (RahValue(mac) & 0xFF) as bv8 == mac[4]
    ensures ((RahValue(mac) >> 8) & 0xFF) as bv8 == mac[5]
    ensures RahValue(mac) & 0xFFFF_0000 == 0
  {
  }

  /** RAL and RAH are both zero exactly for the all-zero address. */
  lemma ZeroAddressIff(mac: MacAddress)
    ensures RalValue(mac) == 0 && RahValue(mac) == 0 <==> mac == [0, 0, 0, 0, 0, 0]
  {
    ReceiveAddressBytes(mac);
    if RalValue(mac) == 0 && RahValue(mac) == 0 {
      assert forall i :: 0 <= i < 6 ==> mac[i] == 0;
    }
  }

  /** The register of table slot n, for the RAL or RAH base offset. */
  function SlotRegister(base: bv32, n: nat): bv32
    requires n < MAXIMUM_MULTICAST_ADDRESSES
  {
    base + 8 * (n as bv32)
  }

  /**
   * The writes for table slot n: a non-zero address is written low half first with the
   * address-valid bit in the high half; the zero address clears the high half (and with it
   * the valid bit) before the low half.
   */
  function SlotEvents(n: nat, mac: MacAddress): seq<Event>
    requires n < MAXIMUM_MULTICAST_ADDRESSES
  {
    var ral, rah := RalValue(mac), RahValue(mac);
    if rah != 0 || ral != 0 then
      [Write(SlotRegister(E1000_REG_RAL, n), ral), Write(SlotRegister(E1000_REG_RAH, n), rah | E1000_RAH_AV)]
    else
      [Write(SlotRegister(E1000_REG_RAH, n), 0), Write(SlotRegister(E1000_REG_RAL, n), 0)]
  }

  /** The writes for table slots 0..m-1 of the multicast list, in slot order. */
  function MulticastEvents(list: seq<MacAddress>, m: nat): seq<Event>
    requires m <= |list| && m <= MAXIMUM_MULTICAST_ADDRESSES
  {
    if m == 0 then [] else MulticastEvents(list, m - 1) + SlotEvents(m - 1, list[m - 1])
  }

  /** Slot n's two writes are events 2n and 2n+1. */
  lemma {:induction false} MulticastEventsSlots(list: seq<MacAddress>, m: nat)
    requires m <= |list| && m <= MAXIMUM_MULTICAST_ADDRESSES
    ensures |MulticastEvents(list, m)| == 2 * m
    ensures forall n :: 0 <= n < m ==>
      MulticastEvents(list, m)[2 * n] == SlotEvents(n, list[n])[0] &&
      MulticastEvents(list, m)[2 * n + 1] == SlotEvents(n, list[n])[1]
  {
    if m > 0 {
      MulticastEventsSlots(list, m - 1);
      var front, slot := MulticastEvents(list, m - 1), SlotEvents(m - 1, list[m - 1]);
      assert |slot| == 2;
      forall n | 0 <= n < m
        ensures (front + slot)[2 * n] == SlotEvents(n, list[n])[0]
        ensures (front + slot)[2 * n + 1] == SlotEvents(n, list[n])[1]
      {
        if n == m - 1 {
          assert (front + slot)[2 * n] == slot[0];
        }
      }
    }
  }

  /** Both writes of a slot go to that slot's RAL or RAH register. */
  lemma SlotEventsRegisters(n: nat, mac: MacAddress)
    requires n < MAXIMUM_MULTICAST_ADDRESSES
    ensures |SlotEvents(n, mac)| == 2
    ensures forall e :: e in SlotEvents(n, mac) ==>
      e.Write? && (e.offset == SlotRegister(E1000_REG_RAL, n) || e.offset == SlotRegister(E1000_REG_RAH, n))
  {
  }

  /** Whether a register lies in the receive-address table (16 RAL/RAH pairs from RAL). */
  predicate InAddressTable(offset: bv32) {
    E1000_REG_RAL <= offset < E1000_REG_RAL + 8 * (MAXIMUM_MULTICAST_ADDRESSES as bv32)
  }

  /** Both registers of every slot lie in the table. */
  lemma SlotRegistersInTable(n: nat)
    requires n < MAXIMUM_MULTICAST_ADDRESSES
    ensures InAddressTable(SlotRegister(E1000_REG_RAL, n)) && InAddressTable(SlotRegister(E1000_REG_RAH, n))
  {
  }

  /** A multicast-list update only writes, and only to the receive-address table. */
  lemma {:induction false} MulticastEventsInTable(list: seq<MacAddress>, m: nat)
    requires m <= |list| && m <= MAXIMUM_MULTICAST_ADDRESSES
    ensures forall e :: e in MulticastEvents(list, m) ==> e.Write? && InAddressTable(e.offset)
  {
    if m > 0 {
      MulticastEventsInTable(list, m - 1);
      SlotEventsRegisters(m - 1, list[m - 1]);
      SlotRegistersInTable(m - 1);
      forall e | e in MulticastEvents(list, m) ensures e.Write? && InAddressTable(e.offset) {
        assert e in MulticastEvents(list, m - 1) || e in SlotEvents(m - 1, list[m - 1]);
      }
    }
  }
}
